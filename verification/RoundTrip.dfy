/** Parsing undoes printing, exactly up to the nesting limit: a print is a derivation of its tree. */
module RoundTrip {
  import opened Bytes
  import opened Json
  import opened Numbers
  import opened Strings
  import opened Rendering
  import opened Grammar
  import opened Syntax
  import opened Language
  import opened Reading
  import opened Soundness

  // ---- the derivation that a print follows ----

  function LaidChar(c: byte): Char {
    if |EscapeByte(c)| == 1 then Plain(c)
    else if |EscapeByte(c)| == 2 then Short(EscapeByte(c)[1])
    else Code(c, EscapeByte(c))
  }

  function LaidChars(s: Bytes): (cs: seq<Char>)
    ensures |cs| == |s|
  {
    if s == [] then [] else [LaidChar(s[0])] + LaidChars(s[1..])
  }

  function LaidInt(n: int): Numeral {
    Numeral(n < 0, NatText(if n < 0 then -n else n), None, None)
  }

  function Laid(j: J, format: bool, at: nat): Spelled
    decreases j, 1
  {
    match j
    case Null => TheNull
    case False => TheFalse
    case True => TheTrue
    case Num(v) => Number(LaidInt(ValueInt(v)))
    case Str(s) => String(LaidChars(s))
    case Arr(xs) => List([], LaidItems(xs, format, at + 1, true))
    case Obj(ms) => Record(Break(format) + Indent(format, at), LaidFields(ms, format, at + 1))
  }

  function LaidItems(xs: seq<J>, format: bool, at: nat, first: bool): (items: seq<Item>)
    ensures |items| == |xs|
    decreases xs, 0
  {
    if xs == [] then []
    else
      [Item(if first || !format then [] else [SPACE], Laid(xs[0], format, at), [])]
      + LaidItems(xs[1..], format, at, false)
  }

  function Break(format: bool): Bytes {
    if format then [NEWLINE] else []
  }

  /** The members of an object, `at` deep. */
  function LaidFields(ms: seq<Member>, format: bool, at: nat): (fields: seq<Field>)
    requires at > 0
    ensures |fields| == |ms|
    decreases ms, 0
  {
    if ms == [] then [] else [LaidField(ms[0], format, at, |ms| == 1)] + LaidFields(ms[1..], format, at)
  }

  function LaidField(m: Member, format: bool, at: nat, last: bool): Field
    requires at > 0
    decreases m, 2
  {
    Field(Break(format) + Indent(format, at), LaidChars(m.key), [], if format then [TAB] else [],
          Laid(m.value, format, at), if last then Break(format) + Indent(format, at - 1) else [])
  }

  // ---- strings and numbers ----

  lemma LaidCharIsByte(c: byte)
    ensures var l := LaidChar(c); IsChar(l) && SpellChar(l) == EscapeByte(c) && CharBytes(l) == [c]
  {
    var e := EscapeByte(c);
    if |e| == 6 {
      assert IsHexDigit(LowerHex(c / 16), c / 16) && IsHexDigit(LowerHex(c % 16), c % 16);
      assert c / 0x10 % 0x10 == c / 16 && c / 0x1000 == 0 && c / 0x100 % 0x10 == 0;
      assert IsUnit(e, 0, c);
    }
  }

  /** How print_string_ptr writes a byte: a control character by its short escape if section 7 of RFC 8259 has
      one, else as a unit with lower-case digits; quote and backslash after a backslash; any other as it is. */
  lemma PrintedByte(c: byte)
    ensures var e := EscapeByte(c);
      if c == '"' as int || c == '\\' as int then e == ['\\' as int, c]
      else if c >= 32 then e == [c]
      else if c in {8, 9, 10, 12, 13} then |e| == 2 && e[0] == '\\' as int && ShortByte(e[1]) == Some(c)
      else
        |e| == 6 && e[..4] == Lit("\\u00") && (forall l :: ShortByte(l) != Some(c))
        && IsHexDigit(e[4], c / 16) && IsHexDigit(e[5], c % 16) && !('A' as int <= e[5] <= 'F' as int)
  {
    var e := EscapeByte(c);
    if |e| == 6 {
      assert IsHexDigit(LowerHex(c / 16), c / 16) && IsHexDigit(LowerHex(c % 16), c % 16);
    }
  }

  lemma {:induction false} LaidCharsAreBytes(s: Bytes)
    ensures var cs := LaidChars(s);
      AreChars(cs) && AreLooseChars(cs) && SpellChars(cs) == Escape(s) && CharsBytes(cs) == s
  {
    hide LaidChar, IsChar, SpellChar, CharBytes, EscapeByte;
    if s != [] {
      var cs, rest := LaidChars(s), LaidChars(s[1..]);
      LaidCharIsByte(s[0]);
      LaidCharsAreBytes(s[1..]);
      assert cs == [cs[0]] + rest && cs[1..] == rest;
      assert s == [s[0]] + s[1..];
    }
  }

  /** parse_string reads back the bytes print_string_ptr wrote, and exactly the literal. */
  lemma QuotedRoundTrip(s: Bytes, off: nat, text: Bytes)
    requires At(s, off, Quoted(text))
    ensures off < |s| && ParseString(s, off) == Some((text, off + |Quoted(text)|))
  {
    hide ParseString;
    LaidCharsAreBytes(text);
    LiteralReads(s, off, LaidChars(text));
  }

  lemma LaidIntIsInt(n: int)
    requires INT_MIN <= n <= INT_MAX
    ensures var l := LaidInt(n);
      IsNumeral(l) && SpellNumeral(l) == IntText(n) && |SpellNumeral(l)| <= MAX_TOKEN && NumeralValue(l) == n as real
  {
    var m := if n < 0 then -n else n;
    var t := NatText(m);
    IntTextLength(n);
    assert t[0..|t|] == t;
    DigitsValueOfNat(t, 0, m);
    assert LaidInt(n).whole == t && AreDigits(t) && NatValue(t) == m;
    NotScaled(m as real);
    assert SpellNumeral(LaidInt(n)) == (if n < 0 then [MINUS] else []) + t + [] + [];
  }

  lemma TextIsC(s: Bytes)
    requires NulFree(s)
    ensures CString(s) == s
  {
    CStringAt(s, |s|);
    assert s[..|s|] == s;
  }

  // ---- trees ----

  /** The derivation of a printable tree means the tree, and is spelled as its text. */
  lemma {:induction false} LaidIsText(j: J, format: bool, at: nat)
    requires Printable(j)
    ensures var v := Laid(j, format, at); WellSpelled(v) && Meaning(v) == j && Spell(v) == Text(j, format, at)
    decreases j, 1
  {
    hide LaidItems, LaidFields, Elements, Rendering.Members, SpellItems, SpellFields, SpellNumeral, IntText, Escape;
    hide ItemsMeaning, FieldsMeaning, AreItems, AreFields, IsNumeral, NumeralValue, LaidChars, CharsBytes, SpellChars;
    hide AreChars, CString, Printable;
    PrintableParts(j);
    match j
    case Num(v) => LaidIntIsInt(ValueInt(v));
    case Str(s) =>
      LaidCharsAreBytes(s);
      TextIsC(s);
    case Arr(xs) => LaidArrayIsText(xs, format, at);
    case Obj(ms) => LaidObjectIsText(ms, format, at);
    case _ =>
  }

  lemma PrintableParts(j: J)
    requires Printable(j)
    ensures match j
      case Num(v) => IsInt32(v)
      case Str(s) => NulFree(s)
      case Arr(xs) => forall x | x in xs :: Printable(x)
      case Obj(ms) => forall m | m in ms :: NulFree(m.key) && Printable(m.value)
      case _ => true
  {
  }

  lemma {:induction false} LaidArrayIsText(xs: seq<J>, format: bool, at: nat)
    requires forall x | x in xs :: Printable(x)
    ensures var v := Laid(Arr(xs), format, at);
      WellSpelled(v) && Meaning(v) == Arr(xs) && Spell(v) == Text(Arr(xs), format, at)
    decreases xs, 2
  {
    hide LaidItems, Elements, SpellItems, ItemsMeaning, AreItems, Printable, IsGap;
    NoElements(format, at + 1);
    GapsAreGaps(format, at);
    LaidItemsAreElements(xs, format, at + 1, true);
  }

  lemma {:induction false} LaidObjectIsText(ms: seq<Member>, format: bool, at: nat)
    requires forall m | m in ms :: NulFree(m.key) && Printable(m.value)
    ensures var v := Laid(Obj(ms), format, at);
      WellSpelled(v) && Meaning(v) == Obj(ms) && Spell(v) == Text(Obj(ms), format, at)
    decreases ms, 2
  {
    hide LaidFields, Rendering.Members, SpellFields, FieldsMeaning, AreFields, Printable, IsGap, Break, Indent, NulFree;
    NoElements(format, at + 1);
    GapsAreGaps(format, at);
    LaidFieldsAreMembers(ms, format, at + 1);
    ObjectApart(ms, format, at);
  }

  lemma GapsAreGaps(format: bool, at: nat)
    ensures IsGap([]) && IsGap([SPACE]) && IsGap([TAB]) && IsGap(Break(format) + Indent(format, at))
  {
  }

  lemma ObjectApart(ms: seq<Member>, format: bool, at: nat)
    ensures Text(Obj(ms), format, at)
      == [LBRACE] + (Break(format) + Rendering.Members(ms, format, at + 1) + Indent(format, at)) + [RBRACE]
  {
    hide Rendering.Members;
    var body := Rendering.Members(ms, format, at + 1);
    assert Opening(format) == [LBRACE] + Break(format) && Closing(format, at) == Indent(format, at) + [RBRACE];
  }

  lemma {:induction false} LaidItemsAreElements(xs: seq<J>, format: bool, at: nat, first: bool)
    requires forall x | x in xs :: Printable(x)
    ensures var items := LaidItems(xs, format, at, first);
      AreItems(items) && ItemsMeaning(items) == xs
      && (xs != [] ==>
            SpellItems(items) == (if first || !format then [] else [SPACE]) + Elements(xs, format, at))
    decreases xs, 0
  {
    hide Laid, Spell, Meaning, WellSpelled, Text, Printable, IsGap, AreItems, SpellItems, Elements;
    var items := LaidItems(xs, format, at, first);
    if xs == [] {
      NoItems();
    } else {
      var rest := LaidItems(xs[1..], format, at, false);
      LaidIsText(xs[0], format, at);
      LaidItemsAreElements(xs[1..], format, at, false);
      GapsAreGaps(format, at);
      assert items[1..] == rest;
      ItemsApart(items);
      ItemsUnfold(items);
      ElementsUnfold(xs, format, at);
      assert xs == [xs[0]] + xs[1..];
      if |xs| > 1 {
        ItemsJoin(items[0].before, Text(xs[0], format, at), if format then [SPACE] else [],
            Elements(xs[1..], format, at));
      }
    }
  }

  lemma ElementsUnfold(xs: seq<J>, format: bool, at: nat)
    requires xs != []
    ensures Elements(xs, format, at)
      == if |xs| == 1 then Text(xs[0], format, at)
         else Text(xs[0], format, at) + ([COMMA] + if format then [SPACE] else []) + Elements(xs[1..], format, at)
  {
    hide Text;
    assert Separator(format) == [COMMA] + if format then [SPACE] else [];
  }

  lemma ItemsJoin(before: Bytes, t: Bytes, space: Bytes, more: Bytes)
    ensures before + t + [] + ([COMMA] + (space + more)) == before + (t + ([COMMA] + space) + more)
  {
  }

  lemma NoItems()
    ensures AreItems([]) && AreFields([])
  {
  }

  /** A field is spelled as the member is printed, but for the break after the comma or the indentation of
      the closing brace. */
  lemma FieldIsMember(m: Member, format: bool, at: nat, last: bool)
    requires at > 0 && Spell(Laid(m.value, format, at)) == Text(m.value, format, at)
    ensures SpellField(LaidField(m, format, at, last)) + (if last then [] else [COMMA] + Break(format))
      == Break(format) + MemberText(m, format, at, last) + (if last then Indent(format, at - 1) else [])
  {
    hide Spell, Laid, Text, Escape, SpellChars, LaidChars, Indent, Break, Quoted, Literally, MemberText;
    var b, i, q, t := Break(format), Indent(format, at), Quoted(m.key), Text(m.value, format, at);
    var space := if format then [TAB] else [];
    var after := if last then b + Indent(format, at - 1) else [];
    KeyIsQuoted(m.key);
    MemberPieces(m, format, at, last);
    PiecesJoin(b, i, q, space, t, after);
    var body := i + q + ([COLON] + space) + t;
    if last {
      assert b + body + (b + Indent(format, at - 1)) == b + (body + ([] + b)) + Indent(format, at - 1);
    } else {
      assert b + body + [] + ([COMMA] + b) == b + (body + ([COMMA] + b)) + [];
    }
  }

  lemma KeyIsQuoted(key: Bytes)
    ensures Literally(LaidChars(key)) == Quoted(key)
  {
    hide Escape, SpellChars, LaidChars;
    LaidCharsAreBytes(key);
  }

  lemma MemberPieces(m: Member, format: bool, at: nat, last: bool)
    ensures MemberText(m, format, at, last)
      == Indent(format, at) + Quoted(m.key) + ([COLON] + if format then [TAB] else []) + Text(m.value, format, at)
         + ((if last then [] else [COMMA]) + Break(format))
  {
    hide Text, Quoted, Indent;
    assert Colon(format) == [COLON] + if format then [TAB] else [];
  }

  lemma PiecesJoin(b: Bytes, i: Bytes, q: Bytes, space: Bytes, t: Bytes, after: Bytes)
    ensures (b + i) + q + [] + [COLON] + space + t + after == b + (i + q + ([COLON] + space) + t) + after
  {
  }

  lemma {:induction false} LaidFieldsAreMembers(ms: seq<Member>, format: bool, at: nat)
    requires at > 0 && forall m | m in ms :: NulFree(m.key) && Printable(m.value)
    ensures var fields := LaidFields(ms, format, at);
      AreFields(fields) && FieldsMeaning(fields) == ms
      && (ms != [] ==>
            SpellFields(fields) == Break(format) + Rendering.Members(ms, format, at) + Indent(format, at - 1))
    decreases ms, 0
  {
    hide Laid, Spell, Meaning, WellSpelled, Text, Printable, IsGap, AreFields, IsField, SpellField, MemberText;
    hide LaidField;
    hide Break, Indent, FieldMeaning, NulFree;
    var fields := LaidFields(ms, format, at);
    if ms == [] {
      NoItems();
    } else {
      var m, rest, last := ms[0], LaidFields(ms[1..], format, at), |ms| == 1;
      LaidIsText(m.value, format, at);
      LaidFieldIsField(m, format, at, last);
      LaidFieldsAreMembers(ms[1..], format, at);
      FieldIsMember(m, format, at, last);
      assert fields[1..] == rest;
      FieldsApart(fields);
      assert ms == [m] + ms[1..];
      var b, i, f, t := Break(format), Indent(format, at - 1), SpellField(fields[0]), MemberText(m, format, at, last);
      if last {
        NoElements(format, at);
        assert f + [] == f && t + [] == t;
      } else {
        FieldsJoin(f, b, t, Rendering.Members(ms[1..], format, at), i);
      }
    }
  }

  lemma FieldsJoin(f: Bytes, b: Bytes, t: Bytes, more: Bytes, i: Bytes)
    requires f + ([COMMA] + b) == b + t + []
    ensures f + ([COMMA] + (b + more + i)) == b + (t + more) + i
  {
    assert f + ([COMMA] + (b + more + i)) == f + ([COMMA] + b) + (more + i);
    assert b + t + [] + (more + i) == b + (t + more) + i;
  }

  lemma LaidFieldIsField(m: Member, format: bool, at: nat, last: bool)
    requires at > 0 && NulFree(m.key) && WellSpelled(Laid(m.value, format, at))
      && Meaning(Laid(m.value, format, at)) == m.value
    ensures var f := LaidField(m, format, at, last);
      IsField(f) && FieldMeaning(f) == m
  {
    hide Laid, WellSpelled, Meaning, IsGap, LaidChars, AreChars, CharsBytes, CString, NulFree;
    LaidCharsAreBytes(m.key);
    TextIsC(m.key);
    GapsAreGaps(format, at);
    GapsAreGaps(format, at - 1);
  }

  // ---- a compact print has no gaps ----

  predicate Gapless(v: Spelled)
    decreases v, 3
  {
    match v
    case List(gap, items) => gap == [] && ItemsGapless(items)
    case Record(gap, fields) => gap == [] && FieldsGapless(fields)
    case _ => true
  }

  predicate ItemsGapless(items: seq<Item>)
    decreases items, 2
  {
    items == []
    || (items[0].before == items[0].after == [] && Gapless(items[0].value) && ItemsGapless(items[1..]))
  }

  predicate FieldsGapless(fields: seq<Field>)
    decreases fields, 2
  {
    fields == [] || (FieldGapless(fields[0]) && FieldsGapless(fields[1..]))
  }

  predicate FieldGapless(f: Field)
    decreases f, 1
  {
    f.before == f.colon == f.space == f.after == [] && Gapless(f.value)
  }

  lemma {:induction false} LaidIsGapless(j: J, at: nat)
    ensures Gapless(Laid(j, false, at))
    decreases j, 1
  {
    match j
    case Arr(xs) => LaidItemsAreGapless(xs, at + 1, true);
    case Obj(ms) => LaidFieldsAreGapless(ms, at + 1);
    case _ =>
  }

  lemma {:induction false} LaidItemsAreGapless(xs: seq<J>, at: nat, first: bool)
    ensures ItemsGapless(LaidItems(xs, false, at, first))
    decreases xs, 0
  {
    hide Laid, Gapless;
    if xs != [] {
      LaidIsGapless(xs[0], at);
      LaidItemsAreGapless(xs[1..], at, false);
      assert LaidItems(xs, false, at, first)[1..] == LaidItems(xs[1..], false, at, false);
    }
  }

  lemma {:induction false} LaidFieldsAreGapless(ms: seq<Member>, at: nat)
    requires at > 0
    ensures FieldsGapless(LaidFields(ms, false, at))
    decreases ms, 0
  {
    hide Laid, Gapless;
    if ms != [] {
      LaidIsGapless(ms[0].value, at);
      LaidFieldsAreGapless(ms[1..], at);
      assert LaidFields(ms, false, at)[1..] == LaidFields(ms[1..], false, at);
    }
  }

  /** cJSON_PrintUnformatted writes the tree by a derivation without any whitespace. */
  lemma CompactPrint(j: J) returns (v: Spelled)
    requires Printable(j)
    ensures WellSpelled(v) && Gapless(v) && Meaning(v) == j && Spell(v) == Text(j, false, 0)
  {
    hide Laid, Text, Spell, WellSpelled, Meaning, Gapless;
    v := Laid(j, false, 0);
    LaidIsText(j, false, 0);
    LaidIsGapless(j, 0);
  }

  // ---- round trips ----

  /** A print is a text of the tree printed. */
  lemma TextIsDerived(j: J, format: bool, at: nat)
    requires Printable(j)
    ensures Derives(Text(j, format, at), j)
  {
    hide Laid, Text, Spell, WellSpelled, Meaning, Printable, Derives;
    LaidIsText(j, format, at);
    SpelledDerives(Laid(j, format, at));
  }

  /** Round trip with the exact limit: cJSON_Parse of a print, compact or formatted, gives the
      tree back when containers nest at most 1000 deep, and fails otherwise. */
  lemma ParseOfPrint(j: J, format: bool)
    requires Printable(j)
    ensures Parse(Text(j, format, 0)) == if NestingAtMost(j, 1000) then Some(j) else None
  {
    hide Laid, Text, Spell, WellSpelled, Meaning, Parse, NestingAtMost, Printable;
    LaidIsText(j, format, 0);
    GapsAreGaps(format, 0);
    ParseOfDerivation([], [], Laid(j, format, 0), []);
    assert [] + ([] + Text(j, format, 0) + []) == Text(j, format, 0);
  }

  /** Nothing is printed alike twice: a printable tree of any depth is fixed by its text. */
  lemma PrintIsInjective(a: J, b: J, format: bool)
    requires Printable(a) && Printable(b) && Text(a, format, 0) == Text(b, format, 0)
    ensures a == b
  {
    hide Text, Derives, Printable;
    TextIsDerived(a, format, 0);
    TextIsDerived(b, format, 0);
    OneMeaning(Text(a, format, 0), a, b);
  }

  /** A print that is cut short anywhere is refused, unless it is that of a number. */
  lemma CutPrintIsRefused(j: J, format: bool, k: nat)
    requires Printable(j) && !j.Num? && k < |Text(j, format, 0)|
    ensures Parse(Text(j, format, 0)[..k]) == None
  {
    hide Text, Derives, Printable, Parse;
    TextIsDerived(j, format, 0);
    CutTextIsRefused(Text(j, format, 0), j, k);
  }

  /** Whatever was parsed and holds only int32 numbers survives being printed and parsed again. */
  lemma ParsePrintParse(s: Bytes, format: bool)
    requires Parse(s).Some? && IntValued(Parse(s).value)
    ensures Printable(Parse(s).value)
    ensures Parse(Text(Parse(s).value, format, 0)) == Parse(s)
  {
    hide ParseValue, Text, Start, Printable, CleanStrings, IntValued, NestingAtMost;
    var buffer := s + [NUL];
    ParsedTrees(buffer, Start(buffer), 0);
    IntValuedAndCleanIsPrintable(Parse(s).value);
    ParseOfPrint(Parse(s).value, format);
  }
}
