/** Texts with comments in the gaps between tokens, and what they are without them. */
module Comments {
  import opened Bytes
  import opened Syntax

  /** The first position at or after `i` where `w` stands, or the end. */
  function First(s: Bytes, i: nat, w: Bytes): (k: nat)
    requires i <= |s| && w != []
    ensures i <= k <= |s|
    ensures forall p :: i <= p < k ==> !At(s, p, w)
    ensures k < |s| ==> At(s, k, w)
    decreases |s| - i
  {
    if i == |s| || At(s, i, w) then i else First(s, i + 1, w)
  }

  predicate BeginsComment(g: Bytes) {
    At(g, 0, Lit("//")) || At(g, 0, Lit("/*"))
  }

  /** Where the comment at the beginning ends: after its line, or after the mark that closes it; beyond the
      text if it goes on. */
  function CommentEnd(g: Bytes): (e: nat)
    requires BeginsComment(g)
    ensures e > 2
  {
    if At(g, 0, Lit("//")) then First(g, 2, Lit("\n")) + 1 else First(g, 2, Lit("*/")) + 2
  }

  /** A gap that may have comments in it; each ends there. */
  predicate IsSpace(g: Bytes)
    decreases |g|
  {
    g == []
    || (if BeginsComment(g) then CommentEnd(g) <= |g| && IsSpace(g[CommentEnd(g)..])
        else NUL < g[0] <= 32 && IsSpace(g[1..]))
  }

  /** The gap without its comments. */
  function Bare(g: Bytes): Bytes
    decreases |g|
  {
    if g == [] then []
    else if BeginsComment(g) then if CommentEnd(g) <= |g| then Bare(g[CommentEnd(g)..]) else []
    else [g[0]] + Bare(g[1..])
  }

  /** The derivation without the comments in its gaps. */
  function Plainly(v: Spelled): Spelled
    decreases v, 1
  {
    match v
    case List(gap, items) => List(Bare(gap), PlainItems(items))
    case Record(gap, fields) => Record(Bare(gap), PlainFields(fields))
    case _ => v
  }

  function PlainItems(items: seq<Item>): (r: seq<Item>)
    ensures |r| == |items|
    decreases items, 0
  {
    if items == [] then []
    else
      [Item(Bare(items[0].before), Plainly(items[0].value), Bare(items[0].after))] + PlainItems(items[1..])
  }

  function PlainFields(fields: seq<Field>): (r: seq<Field>)
    ensures |r| == |fields|
    decreases fields, 0
  {
    if fields == [] then [] else [PlainField(fields[0])] + PlainFields(fields[1..])
  }

  function PlainField(f: Field): Field
    decreases f, 2
  {
    Field(Bare(f.before), f.key, Bare(f.colon), Bare(f.space), Plainly(f.value), Bare(f.after))
  }

  /** Well spelled, but for the comments. */
  predicate Commented(v: Spelled)
    decreases v, 3
  {
    match v
    case Number(n) => IsNumeral(n) && |SpellNumeral(n)| <= 63
    case String(cs) => AreChars(cs)
    case List(gap, items) => IsSpace(gap) && ItemsCommented(items)
    case Record(gap, fields) => IsSpace(gap) && FieldsCommented(fields)
    case _ => true
  }

  predicate ItemsCommented(items: seq<Item>)
    decreases items, 2
  {
    items == []
    || (IsSpace(items[0].before) && Commented(items[0].value) && IsSpace(items[0].after) && ItemsCommented(items[1..]))
  }

  predicate FieldsCommented(fields: seq<Field>)
    decreases fields, 2
  {
    fields == [] || (FieldCommented(fields[0]) && FieldsCommented(fields[1..]))
  }

  predicate FieldCommented(f: Field)
    decreases f, 1
  {
    IsSpace(f.before) && AreChars(f.key) && IsSpace(f.colon) && IsSpace(f.space) && Commented(f.value)
    && IsSpace(f.after)
  }

  // ---- without comments it is well spelled, and what is well spelled has none ----

  lemma {:induction false} BareIsGap(g: Bytes)
    ensures IsSpace(g) ==> IsGap(Bare(g))
    ensures IsGap(g) ==> IsSpace(g) && Bare(g) == g
    decreases |g|
  {
    hide At;
    if g != [] {
      if BeginsComment(g) {
        SlashFirst(g);
        if CommentEnd(g) <= |g| {
          BareIsGap(g[CommentEnd(g)..]);
        }
      } else {
        BareIsGap(g[1..]);
        assert IsGap(g) ==> IsGap(g[1..]) && g == [g[0]] + g[1..];
      }
    }
  }

  lemma SlashFirst(g: Bytes)
    requires BeginsComment(g)
    ensures |g| >= 2 && g[0] == SLASH && !IsGap(g)
    ensures if At(g, 0, Lit("//")) then g[1] == SLASH else g[1] == STAR
  {
    assert g[0..2][0] == g[0] && g[0..2][1] == g[1];
  }

  lemma {:induction false} PlainlySpelled(v: Spelled)
    ensures Commented(v) ==> WellSpelled(Plainly(v))
    ensures WellSpelled(v) ==> Commented(v) && Plainly(v) == v
    decreases v, 1
  {
    hide IsGap, IsSpace, Bare, AreItems, AreFields, AreChars, IsNumeral, SpellNumeral;
    match v
    case List(gap, items) =>
      BareIsGap(gap);
      PlainlyItems(items);
    case Record(gap, fields) =>
      BareIsGap(gap);
      PlainlyFields(fields);
    case _ =>
  }

  lemma {:induction false} PlainlyItems(items: seq<Item>)
    ensures ItemsCommented(items) ==> AreItems(PlainItems(items))
    ensures AreItems(items) ==> ItemsCommented(items) && PlainItems(items) == items
    decreases items, 0
  {
    hide IsGap, IsSpace, Bare, AreItems, WellSpelled, Commented, Plainly;
    if items == [] {
      NoItemsPlain();
    } else {
      var plain := PlainItems(items);
      BareIsGap(items[0].before);
      BareIsGap(items[0].after);
      PlainlySpelled(items[0].value);
      PlainlyItems(items[1..]);
      assert plain[1..] == PlainItems(items[1..]) && items == [items[0]] + items[1..];
      ItemsApart(items);
      ItemsApart(plain);
    }
  }

  lemma NoItemsPlain()
    ensures AreItems([]) && AreFields([])
  {
  }

  lemma {:induction false} PlainlyFields(fields: seq<Field>)
    ensures FieldsCommented(fields) ==> AreFields(PlainFields(fields))
    ensures AreFields(fields) ==> FieldsCommented(fields) && PlainFields(fields) == fields
    decreases fields, 0
  {
    hide IsField, AreFields, FieldCommented, PlainField;
    if fields == [] {
      NoItemsPlain();
    } else {
      var plain := PlainFields(fields);
      PlainlyField(fields[0]);
      PlainlyFields(fields[1..]);
      assert plain[1..] == PlainFields(fields[1..]) && fields == [fields[0]] + fields[1..];
      FieldsApart(fields);
      FieldsApart(plain);
    }
  }

  lemma {:induction false} PlainlyField(f: Field)
    ensures FieldCommented(f) ==> IsField(PlainField(f))
    ensures IsField(f) ==> FieldCommented(f) && PlainField(f) == f
    decreases f, 2
  {
    hide IsGap, IsSpace, Bare, WellSpelled, Commented, Plainly, AreChars;
    BareIsGap(f.before);
    BareIsGap(f.colon);
    BareIsGap(f.space);
    BareIsGap(f.after);
    PlainlySpelled(f.value);
  }
}
