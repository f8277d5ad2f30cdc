/** The language of the parser, as a relation between texts and trees: the grammar of section 2 of RFC 8259,
    with any bytes up to 32 as whitespace, and with the strings and numbers that the parser takes. */
module Language {
  import opened Bytes
  import opened Json
  import Rendering
  import opened Syntax

  predicate LooseGap(ws: Bytes) {
    forall i :: 0 <= i < |ws| ==> ws[i] <= 32
  }

  /** `t` is a text of the tree `j`. */
  ghost predicate Derives(t: Bytes, j: J)
    decreases j, 0
  {
    match j
    case Null => t == Lit("null")
    case False => t == Lit("false")
    case True => t == Lit("true")
    case Num(v) => NumberText(t, v)
    case Str(s) => NameText(t, s)
    case Arr(xs) =>
      |t| >= 2 && t[0] == '[' as int && t[|t| - 1] == ']' as int && DerivesItems(t[1..|t| - 1], xs)
    case Obj(ms) =>
      |t| >= 2 && t[0] == '{' as int && t[|t| - 1] == '}' as int && DerivesFields(t[1..|t| - 1], ms)
  }

  /** A literal of the C string `s`. */
  ghost predicate NameText(t: Bytes, s: Bytes) {
    exists bytes :: StringText(t, bytes) && s == CString(bytes)
  }

  /** A value with gaps around it. */
  ghost predicate DerivesItem(b: Bytes, x: J)
    decreases x, 1
  {
    exists p, q :: 0 <= p <= q <= |b| && LooseGap(b[..p]) && LooseGap(b[q..]) && Derives(b[p..q], x)
  }

  /** Values with commas between them; a gap when there is none. */
  ghost predicate DerivesItems(b: Bytes, xs: seq<J>)
    decreases xs, 2
  {
    if xs == [] then LooseGap(b)
    else if |xs| == 1 then DerivesItem(b, xs[0])
    else
      exists i :: 0 <= i < |b| && b[i] == ',' as int && DerivesItem(b[..i], xs[0]) && DerivesItems(b[i + 1..], xs[1..])
  }

  ghost predicate DerivesName(b: Bytes, key: Bytes) {
    exists p, q :: 0 <= p <= q <= |b| && LooseGap(b[..p]) && LooseGap(b[q..]) && NameText(b[p..q], key)
  }

  /** A name, a colon and a value. */
  ghost predicate DerivesField(b: Bytes, m: Member)
    decreases m, 2
  {
    exists i :: 0 <= i < |b| && b[i] == ':' as int && DerivesName(b[..i], m.key) && DerivesItem(b[i + 1..], m.value)
  }

  ghost predicate DerivesFields(b: Bytes, ms: seq<Member>)
    decreases ms, 2
  {
    if ms == [] then LooseGap(b)
    else if |ms| == 1 then DerivesField(b, ms[0])
    else
      exists i ::
        0 <= i < |b| && b[i] == ',' as int && DerivesField(b[..i], ms[0]) && DerivesFields(b[i + 1..], ms[1..])
  }

  // ---- what section 2 of RFC 8259 derives is in the language ----

  lemma GapIsLoose(gap: Bytes)
    requires IsGap(gap)
    ensures LooseGap(gap)
  {
  }

  lemma MakesItem(a: Bytes, t: Bytes, b: Bytes, x: J)
    requires LooseGap(a) && Derives(t, x) && LooseGap(b)
    ensures DerivesItem(a + t + b, x)
  {
    hide Derives, LooseGap;
    var w := a + t + b;
    var p, q := |a|, |a| + |t|;
    assert w[..p] == a && w[p..q] == t && w[q..] == b;
  }

  lemma MakesName(a: Bytes, t: Bytes, b: Bytes, key: Bytes)
    requires LooseGap(a) && NameText(t, key) && LooseGap(b)
    ensures DerivesName(a + t + b, key)
  {
    hide NameText, LooseGap;
    var w := a + t + b;
    var p, q := |a|, |a| + |t|;
    assert w[..p] == a && w[p..q] == t && w[q..] == b;
  }

  lemma MakesItems(a: Bytes, x: J, b: Bytes, xs: seq<J>)
    requires DerivesItem(a, x) && DerivesItems(b, xs) && xs != []
    ensures DerivesItems(a + [COMMA] + b, [x] + xs)
  {
    hide DerivesItem;
    var w, all := a + [COMMA] + b, [x] + xs;
    assert w[..|a|] == a && w[|a|] == COMMA && w[|a| + 1..] == b && all[1..] == xs;
  }

  lemma MakesField(a: Bytes, b: Bytes, m: Member)
    requires DerivesName(a, m.key) && DerivesItem(b, m.value)
    ensures DerivesField(a + [COLON] + b, m)
  {
    hide DerivesItem, DerivesName;
    var w := a + [COLON] + b;
    assert w[..|a|] == a && w[|a|] == COLON && w[|a| + 1..] == b;
  }

  lemma MakesFields(a: Bytes, m: Member, b: Bytes, ms: seq<Member>)
    requires DerivesField(a, m) && DerivesFields(b, ms) && ms != []
    ensures DerivesFields(a + [COMMA] + b, [m] + ms)
  {
    hide DerivesField;
    var w, all := a + [COMMA] + b, [m] + ms;
    assert w[..|a|] == a && w[|a|] == COMMA && w[|a| + 1..] == b && all[1..] == ms;
  }

  lemma ItemsSplit(b: Bytes, xs: seq<J>) returns (i: nat)
    requires xs != [] && DerivesItems(b, xs)
    ensures if |xs| == 1 then i == |b| && DerivesItem(b, xs[0])
      else i < |b| && b[i] == COMMA && DerivesItem(b[..i], xs[0]) && DerivesItems(b[i + 1..], xs[1..])
  {
    hide DerivesItem;
    if |xs| == 1 {
      return |b|;
    }
    i :| 0 <= i < |b| && b[i] == ',' as int && DerivesItem(b[..i], xs[0]) && DerivesItems(b[i + 1..], xs[1..]);
  }

  lemma FieldsSplit(b: Bytes, ms: seq<Member>) returns (i: nat)
    requires ms != [] && DerivesFields(b, ms)
    ensures if |ms| == 1 then i == |b| && DerivesField(b, ms[0])
      else i < |b| && b[i] == COMMA && DerivesField(b[..i], ms[0]) && DerivesFields(b[i + 1..], ms[1..])
  {
    hide DerivesField;
    if |ms| == 1 {
      return |b|;
    }
    i :| 0 <= i < |b| && b[i] == ',' as int && DerivesField(b[..i], ms[0]) && DerivesFields(b[i + 1..], ms[1..]);
  }

  lemma MakesArray(b: Bytes, xs: seq<J>)
    requires DerivesItems(b, xs)
    ensures Derives([LBRACKET] + b + [RBRACKET], Arr(xs))
  {
    hide DerivesItems;
    var t := [LBRACKET] + b + [RBRACKET];
    assert t[1..|t| - 1] == b;
  }

  lemma MakesObject(b: Bytes, ms: seq<Member>)
    requires DerivesFields(b, ms)
    ensures Derives([LBRACE] + b + [RBRACE], Obj(ms))
  {
    hide DerivesFields;
    var t := [LBRACE] + b + [RBRACE];
    assert t[1..|t| - 1] == b;
  }

  lemma WordsAreWords()
    ensures Rendering.NULL_WORD == Lit("null") && Rendering.FALSE_WORD == Lit("false")
    ensures Rendering.TRUE_WORD == Lit("true")
  {
  }

  lemma {:induction false} SpelledDerives(v: Spelled)
    requires WellSpelled(v)
    ensures Derives(Spell(v), Meaning(v))
    decreases v, 1
  {
    hide DerivesItems, DerivesFields, SpellItems, SpellFields, ItemsMeaning, FieldsMeaning, AreItems, AreFields, IsGap;
    hide IsNumeral, SpellNumeral, NumeralValue, Literally, CharsBytes, AreChars, StringText, CString;
    match v
    case Number(n) =>
      NumeralIsLoose(n);
      assert Denotes(n, SpellNumeral(n), NumeralValue(n));
    case String(cs) => LiteralIsText(cs);
    case List(gap, items) =>
      if items == [] {
        NoItemsMeant(gap);
      } else {
        SpelledItemsDerive(items);
      }
      MakesArray(if items == [] then gap else SpellItems(items), ItemsMeaning(items));
    case Record(gap, fields) =>
      if fields == [] {
        NoItemsMeant(gap);
      } else {
        SpelledFieldsDerive(fields);
      }
      MakesObject(if fields == [] then gap else SpellFields(fields), FieldsMeaning(fields));
    case _ => WordsAreWords();
  }

  lemma NumeralIsLoose(n: Numeral)
    requires IsNumeral(n)
    ensures IsLooseNumeral(n)
  {
  }

  lemma NoItemsMeant(gap: Bytes)
    requires IsGap(gap)
    ensures AreItems([]) && ItemsMeaning([]) == [] && DerivesItems(gap, [])
    ensures AreFields([]) && FieldsMeaning([]) == [] && DerivesFields(gap, [])
  {
  }

  lemma {:induction false} SpelledItemsDerive(items: seq<Item>)
    requires items != [] && AreItems(items)
    ensures DerivesItems(SpellItems(items), ItemsMeaning(items))
    decreases items, 0
  {
    hide Spell, Meaning, WellSpelled, IsGap, LooseGap, DerivesItem, Derives, SpellItems, AreItems;
    ItemsApart(items);
    var i, rest := items[0], items[1..];
    var a, x := i.before + Spell(i.value) + i.after, Meaning(i.value);
    ItemsUnfold(items);
    GapIsLoose(i.before);
    GapIsLoose(i.after);
    SpelledDerives(i.value);
    MakesItem(i.before, Spell(i.value), i.after, x);
    if |items| == 1 {
      assert a + [] == a && ItemsMeaning(items) == [x];
    } else {
      SpelledItemsDerive(rest);
      MakesItems(a, x, SpellItems(rest), ItemsMeaning(rest));
      Assoc(a, [COMMA], SpellItems(rest));
    }
  }

  lemma {:induction false} SpelledFieldDerives(f: Field)
    requires IsField(f)
    ensures DerivesField(SpellField(f), FieldMeaning(f))
    decreases f, 1
  {
    hide Spell, Meaning, WellSpelled, IsGap, LooseGap, DerivesItem, DerivesName, Literally, StringText;
    hide CharsBytes, CString;
    GapIsLoose(f.before);
    GapIsLoose(f.colon);
    GapIsLoose(f.space);
    GapIsLoose(f.after);
    LiteralIsText(f.key);
    SpelledDerives(f.value);
    MakesName(f.before, Literally(f.key), f.colon, FieldMeaning(f).key);
    MakesItem(f.space, Spell(f.value), f.after, Meaning(f.value));
    MakesField(f.before + Literally(f.key) + f.colon, f.space + Spell(f.value) + f.after, FieldMeaning(f));
    FieldPieces(f.before + Literally(f.key) + f.colon, f.space, Spell(f.value), f.after);
  }

  lemma FieldPieces(a: Bytes, b: Bytes, c: Bytes, d: Bytes)
    ensures a + [COLON] + b + c + d == a + [COLON] + (b + c + d)
  {
  }

  lemma {:induction false} SpelledFieldsDerive(fields: seq<Field>)
    requires fields != [] && AreFields(fields)
    ensures DerivesFields(SpellFields(fields), FieldsMeaning(fields))
    decreases fields, 0
  {
    hide SpellField, FieldMeaning, IsField, DerivesField, SpellFields, AreFields;
    FieldsApart(fields);
    var f, rest := fields[0], fields[1..];
    var a, m := SpellField(f), FieldMeaning(f);
    FieldsUnfold(fields);
    SpelledFieldDerives(f);
    if |fields| == 1 {
      assert a + [] == a && FieldsMeaning(fields) == [m];
    } else {
      SpelledFieldsDerive(rest);
      MakesFields(a, m, SpellFields(rest), FieldsMeaning(rest));
      Assoc(a, [COMMA], SpellFields(rest));
    }
  }
}
