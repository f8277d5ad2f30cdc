/** When minifying a formatted print gives the compact print: exactly when no string that ends in
    a backslash has formatting whitespace after it. */
module MinifyText {
  import opened Bytes
  import opened Json
  import opened Numbers
  import opened Strings
  import opened Rendering
  import opened Minify

  predicate EndsInBackslash(s: Bytes) {
    s != [] && s[|s| - 1] == BACKSLASH
  }

  /** No string and no key ends in a backslash. */
  predicate Clean(j: J) {
    match j
    case Str(s) => !EndsInBackslash(s)
    case Arr(xs) => forall x | x in xs :: Clean(x)
    case Obj(ms) => forall m | m in ms :: !EndsInBackslash(m.key) && Clean(m.value)
    case _ => true
  }

  /** Clean, except perhaps for one string that only closing brackets of arrays follow. */
  predicate Stable(j: J) {
    match j
    case Str(_) => true
    case Arr(xs) => StableElements(xs)
    case _ => Clean(j)
  }

  predicate StableElements(xs: seq<J>) {
    xs == [] || (if |xs| == 1 then Stable(xs[0]) else Clean(xs[0]) && StableElements(xs[1..]))
  }

  // ---- the filter on pieces of text ----

  predicate Ordinary(c: byte) {
    !IsBlank(c) && c != SLASH && c != QUOTE
  }

  lemma OneOrdinary(c: byte, r: Bytes)
    requires Ordinary(c)
    ensures Minified([c] + r) == [c] + Minified(r)
  {
    hide StringEnd, AfterLine, AfterBlock;
    assert ([c] + r)[1..] == r;
  }

  lemma {:induction false} MinifiedOrdinary(w: Bytes, r: Bytes)
    requires forall i :: 0 <= i < |w| ==> Ordinary(w[i])
    ensures Minified(w + r) == w + Minified(r)
  {
    hide Minified;
    if w == [] {
      assert w + r == r;
    } else {
      MinifiedOrdinary(w[1..], r);
      OneOrdinary(w[0], w[1..] + r);
      assert w + r == [w[0]] + (w[1..] + r);
      assert [w[0]] + (w[1..] + Minified(r)) == w + Minified(r);
    }
  }

  lemma {:induction false} MinifiedBlank(w: Bytes, r: Bytes)
    requires forall i :: 0 <= i < |w| ==> IsBlank(w[i])
    ensures Minified(w + r) == Minified(r)
  {
    if w == [] {
      assert w + r == r;
    } else {
      MinifiedBlank(w[1..], r);
      assert (w + r)[1..] == w[1..] + r;
    }
  }

  /** The filter from inside a string on. */
  function Inside(r: Bytes): Bytes {
    r[..StringEnd(r)] + Minified(r[StringEnd(r)..])
  }

  lemma MinifiedString(r: Bytes)
    ensures Minified([QUOTE] + r) == [QUOTE] + Inside(r)
  {
    hide StringEnd, AfterLine, AfterBlock;
    var s := [QUOTE] + r;
    var n := StringEnd(r);
    assert s[1..] == r;
    assert s[..1 + n] == [QUOTE] + r[..n] && s[1 + n..] == r[n..];
    assert [QUOTE] + r[..n] + Minified(r[n..]) == [QUOTE] + (r[..n] + Minified(r[n..]));
  }

  lemma InsideQuote(r: Bytes)
    ensures Inside([QUOTE] + r) == [QUOTE] + Minified(r)
  {
    StringEndQuote(r);
    assert ([QUOTE] + r)[..1] == [QUOTE] && ([QUOTE] + r)[1..] == r;
  }

  /** What is copied inside a string comes before the filter of the rest. */
  lemma InsidePrefix(p: Bytes, r: Bytes)
    requires StringEnd(p + r) == |p| + StringEnd(r)
    ensures Inside(p + r) == p + Inside(r)
  {
    hide StringEnd, Minified;
    var n := StringEnd(r);
    PrefixParts(p, r, n);
    Assoc(p, r[..n], Minified(r[n..]));
  }

  lemma PrefixParts(p: Bytes, r: Bytes, n: nat)
    requires n <= |r|
    ensures (p + r)[..|p| + n] == p + r[..n] && (p + r)[|p| + n..] == r[n..]
  {
  }

  /** Inside a string a byte is copied, unless it is a quote or a backslash before one. */
  lemma InsidePlain(c: byte, r: Bytes)
    requires c != QUOTE && (c == BACKSLASH ==> r == [] || r[0] != QUOTE)
    ensures Inside([c] + r) == [c] + Inside(r)
  {
    hide StringEnd, Inside;
    StringEndPlain(c, r);
    InsidePrefix([c], r);
  }

  lemma InsideEscape(r: Bytes)
    ensures Inside([BACKSLASH, QUOTE] + r) == [BACKSLASH, QUOTE] + Inside(r)
  {
    hide StringEnd, Inside;
    StringEndEscape(r);
    InsidePrefix([BACKSLASH, QUOTE], r);
  }

  lemma {:induction false} InsidePlains(w: Bytes, r: Bytes)
    requires forall i :: 0 <= i < |w| ==> w[i] != QUOTE && w[i] != BACKSLASH
    ensures Inside(w + r) == w + Inside(r)
  {
    if w == [] {
      assert w + r == r;
    } else {
      InsidePlains(w[1..], r);
      InsidePlain(w[0], w[1..] + r);
      assert [w[0]] + (w[1..] + r) == w + r;
      assert [w[0]] + (w[1..] + Inside(r)) == w + Inside(r);
    }
  }

  /** An escaped byte inside a string is copied; an escaped backslash only if no quote is next. */
  lemma InsideEscaped(c: byte, r: Bytes)
    requires c == BACKSLASH ==> r == [] || r[0] != QUOTE
    ensures Inside(EscapeByte(c) + r) == EscapeByte(c) + Inside(r)
  {
    hide Inside;
    var e := EscapeByte(c);
    if c == QUOTE {
      InsideEscape(r);
    } else if |e| == 1 {
      InsidePlain(c, r);
    } else {
      var t := e[1..];
      EscapeTail(c);
      if c == BACKSLASH {
        InsidePlain(c, r);
      } else {
        InsidePlains(t, r);
      }
      InsidePlain(BACKSLASH, t + r);
      Assoc([BACKSLASH], t, r);
      Assoc([BACKSLASH], t, Inside(r));
    }
  }

  lemma EscapeTail(c: byte)
    requires |EscapeByte(c)| > 1
    ensures var t := EscapeByte(c)[1..];
      EscapeByte(c) == [BACKSLASH] + t
      && (c == BACKSLASH ==> t == [c])
      && (c != QUOTE && c != BACKSLASH ==>
            t[0] != QUOTE && forall i :: 0 <= i < |t| ==> t[i] != QUOTE && t[i] != BACKSLASH)
  {
  }

  /** The body of a literal is copied up to its closing quote, where the filter leaves the string
      unless the text ends in a backslash. */
  lemma {:induction false} InsideBody(s: Bytes, r: Bytes)
    ensures Inside(Escape(s) + ([QUOTE] + r))
      == Escape(s) + ([QUOTE] + if EndsInBackslash(s) then Inside(r) else Minified(r))
  {
    var tail := [QUOTE] + r;
    if s == [] {
      InsideQuote(r);
      assert Escape(s) + tail == tail;
    } else {
      hide Inside, Minified, EscapeByte;
      var e, rest := EscapeByte(s[0]), Escape(s[1..]);
      var after := if EndsInBackslash(s) then Inside(r) else Minified(r);
      Assoc(e, rest, tail);
      if |s| == 1 {
        LastInside(s[0], r);
        assert rest == [] && rest + tail == tail && e + rest == e;
      } else {
        NotQuote(s[1], rest, s[1..]);
        InsideEscaped(s[0], rest + tail);
        InsideBody(s[1..], r);
        Assoc(e, rest, [QUOTE] + after);
      }
    }
  }

  lemma NotQuote(c: byte, rest: Bytes, s: Bytes)
    requires s != [] && s[0] == c && rest == Escape(s)
    ensures rest != [] && rest[0] != QUOTE
  {
  }

  lemma LastInside(c: byte, r: Bytes)
    ensures Inside(EscapeByte(c) + ([QUOTE] + r))
      == EscapeByte(c) + ([QUOTE] + if c == BACKSLASH then Inside(r) else Minified(r))
  {
    hide Inside, Minified;
    if c == BACKSLASH {
      var w: Bytes := [BACKSLASH];
      InsidePlain(BACKSLASH, [BACKSLASH, QUOTE] + r);
      InsideEscape(r);
      assert w + ([BACKSLASH, QUOTE] + r) == EscapeByte(c) + ([QUOTE] + r);
      assert w + ([BACKSLASH, QUOTE] + Inside(r)) == EscapeByte(c) + ([QUOTE] + Inside(r));
    } else {
      InsideEscaped(c, [QUOTE] + r);
      InsideQuote(r);
    }
  }

  lemma MinifiedQuoted(s: Bytes, r: Bytes)
    ensures Minified(Quoted(s) + r) == Quoted(s) + if EndsInBackslash(s) then Inside(r) else Minified(r)
  {
    hide Inside, Minified, Escape, EndsInBackslash;
    var after := if EndsInBackslash(s) then Inside(r) else Minified(r);
    InsideBody(s, r);
    MinifiedString(Escape(s) + ([QUOTE] + r));
    QuotedApart(s, r);
    QuotedApart(s, after);
  }

  lemma QuotedApart(s: Bytes, r: Bytes)
    ensures Quoted(s) + r == [QUOTE] + (Escape(s) + ([QUOTE] + r))
  {
    hide Escape;
  }

  // ---- trees whose minified text is the compact text ----

  lemma {:induction j} CleanIsStable(j: J)
    ensures Clean(j) ==> Stable(j)
  {
    if j.Arr? && Clean(j) {
      CleanElementsAreStable(j.elements);
    }
  }

  lemma {:induction false} CleanElementsAreStable(xs: seq<J>)
    requires forall x | x in xs :: Clean(x)
    ensures StableElements(xs)
    decreases xs, 0
  {
    if xs != [] {
      CleanIsStable(xs[0]);
      CleanElementsAreStable(xs[1..]);
    }
  }

  /** Where the filter stands after a stable tree: outside strings, or inside its last one. */
  function After(clean: bool, r: Bytes): Bytes {
    if clean then Minified(r) else Inside(r)
  }

  predicate CleanElements(xs: seq<J>) {
    forall x | x in xs :: Clean(x)
  }

  lemma LeafMinifies(j: J, r: Bytes)
    requires !j.Arr? && !j.Obj?
    ensures forall d: nat, f: bool :: Text(j, f, d) == Text(j, false, 0)
    ensures Minified(Text(j, false, 0) + r) == Text(j, false, 0) + After(Clean(j), r)
  {
    if j.Str? {
      MinifiedQuoted(j.text, r);
    } else {
      var t := Text(j, false, 0);
      assert j.Num? ==> forall i :: 0 <= i < |t| ==> IsNumberChar(t[i]);
      MinifiedOrdinary(t, r);
    }
  }

  /** The filter turns the formatted text of a stable tree into its compact text. */
  lemma {:induction false} TextMinifies(j: J, d: nat, e: nat, r: Bytes)
    requires Stable(j)
    ensures Minified(Text(j, true, d) + r) == Text(j, false, e) + After(Clean(j), r)
    decreases j, 1
  {
    hide Minified, Inside, Elements, Members;
    match j
    case Arr(xs) =>
      var ef, eu := Elements(xs, true, d + 1), Elements(xs, false, e + 1);
      ArrayApart(ef, r);
      MinifiedOrdinary([LBRACKET], ef + ([RBRACKET] + r));
      ElementsMinify(xs, d + 1, e + 1, [RBRACKET] + r);
      MinifiedOrdinary([RBRACKET], r);
      InsidePlain(RBRACKET, r);
      ArrayApart(eu, After(CleanElements(xs), r));
    case Obj(ms) =>
      var mf, mu := Members(ms, true, d + 1), Members(ms, false, e + 1);
      ObjectApart(mf, true, d, r);
      MinifiedOpening(mf + (Closing(true, d) + r));
      MembersMinify(ms, d + 1, e + 1, Closing(true, d) + r);
      MinifiedClosing(d, r);
      ObjectApart(mu, false, e, Minified(r));
    case _ => LeafMinifies(j, r);
  }

  lemma ArrayApart(body: Bytes, r: Bytes)
    ensures [LBRACKET] + body + [RBRACKET] + r == [LBRACKET] + (body + ([RBRACKET] + r))
  {
  }

  lemma ObjectApart(body: Bytes, format: bool, d: nat, r: Bytes)
    ensures Opening(format) + body + Closing(format, d) + r == Opening(format) + (body + (Closing(format, d) + r))
  {
    hide Opening, Closing;
  }

  lemma MinifiedOpening(r: Bytes)
    ensures Minified(Opening(true) + r) == Opening(false) + Minified(r)
  {
    hide Minified;
    MinifiedBlank([NEWLINE], r);
    MinifiedOrdinary([LBRACE], [NEWLINE] + r);
    Assoc([LBRACE], [NEWLINE], r);
    assert Opening(true) == [LBRACE] + [NEWLINE];
  }

  lemma MinifiedClosing(d: nat, r: Bytes)
    ensures Minified(Closing(true, d) + r) == [RBRACE] + Minified(r)
  {
    hide Minified;
    MinifiedOrdinary([RBRACE], r);
    MinifiedBlank(Tabs(d), [RBRACE] + r);
    Assoc(Tabs(d), [RBRACE], r);
  }

  lemma MinifiedSeparator(r: Bytes)
    ensures Minified(Separator(true) + r) == [COMMA] + Minified(r)
  {
    hide Minified;
    MinifiedBlank([SPACE], r);
    MinifiedOrdinary([COMMA], [SPACE] + r);
    Assoc([COMMA], [SPACE], r);
    assert Separator(true) == [COMMA] + [SPACE];
  }

  lemma MinifiedColon(r: Bytes)
    ensures Minified(Colon(true) + r) == [COLON] + Minified(r)
  {
    hide Minified;
    MinifiedBlank([TAB], r);
    MinifiedOrdinary([COLON], [TAB] + r);
    Assoc([COLON], [TAB], r);
    assert Colon(true) == [COLON] + [TAB];
  }

  lemma MinifiedMemberEnd(last: bool, r: Bytes)
    ensures Minified(MemberEnd(true, last) + r) == MemberEnd(false, last) + Minified(r)
  {
    hide Minified;
    MinifiedBlank([NEWLINE], r);
    var comma: Bytes := if last then [] else [COMMA];
    MinifiedOrdinary(comma, [NEWLINE] + r);
    Assoc(comma, [NEWLINE], r);
    assert MemberEnd(false, last) == comma;
  }

  lemma ElementsSplit(xs: seq<J>, format: bool, d: nat, r: Bytes)
    requires |xs| > 1
    ensures Elements(xs, format, d) + r
      == Text(xs[0], format, d) + (Separator(format) + (Elements(xs[1..], format, d) + r))
    ensures CleanElements(xs) <==> Clean(xs[0]) && CleanElements(xs[1..])
  {
    hide Text, Separator, Clean;
    var t, s, rest := Text(xs[0], format, d), Separator(format), Elements(xs[1..], format, d);
    Assoc(t + s, rest, r);
    Assoc(t, s, rest + r);
    assert xs == [xs[0]] + xs[1..];
  }

  lemma {:induction false} ElementsMinify(xs: seq<J>, d: nat, e: nat, r: Bytes)
    requires StableElements(xs)
    ensures Minified(Elements(xs, true, d) + r) == Elements(xs, false, e) + After(CleanElements(xs), r)
    decreases xs, 0
  {
    hide Minified, Inside, Text, Clean, Separator;
    if xs == [] {
      assert Elements(xs, true, d) + r == r;
    } else if |xs| == 1 {
      TextMinifies(xs[0], d, e, r);
      assert xs == [xs[0]];
    } else {
      var rest := xs[1..];
      var tail := Elements(rest, true, d) + r;
      ElementsSplit(xs, true, d, r);
      ElementsSplit(xs, false, e, After(CleanElements(xs), r));
      CleanIsStable(xs[0]);
      TextMinifies(xs[0], d, e, Separator(true) + tail);
      MinifiedSeparator(tail);
      ElementsMinify(rest, d, e, r);
      assert Separator(false) == [COMMA] by { SeparatorIsComma(); }
    }
  }

  lemma SeparatorIsComma()
    ensures Separator(false) == [COMMA] && Separator(true) == [COMMA, SPACE]
  {
  }

  lemma MemberApart(m: Member, format: bool, d: nat, last: bool, r: Bytes)
    ensures MemberText(m, format, d, last) + r
      == Indent(format, d) + (Quoted(m.key)
        + (Colon(format) + (Text(m.value, format, d) + (MemberEnd(format, last) + r))))
  {
    hide Indent, Quoted, Colon, Text, MemberEnd;
    var a, b, c, v, e := Indent(format, d), Quoted(m.key), Colon(format), Text(m.value, format, d),
      MemberEnd(format, last);
    Assoc(a + b + c + v, e, r);
    Assoc(a + b + c, v, e + r);
    Assoc(a + b, c, v + (e + r));
    Assoc(a, b, c + (v + (e + r)));
  }

  lemma NoIndent(d: nat, r: Bytes)
    ensures Indent(false, d) + r == r && Colon(false) == [COLON]
    ensures Minified(Indent(true, d) + r) == Minified(r)
  {
    MinifiedBlank(Tabs(d), r);
  }

  lemma {:induction false} MemberMinifies(m: Member, d: nat, e: nat, last: bool, r: Bytes)
    requires !EndsInBackslash(m.key) && Clean(m.value)
    ensures Minified(MemberText(m, true, d, last) + r) == MemberText(m, false, e, last) + Minified(r)
    decreases m, 2
  {
    hide Minified, MemberText, Quoted, Text, Indent, Colon, MemberEnd, Clean, EndsInBackslash;
    var tail := MemberEnd(true, last) + r;
    var value := Text(m.value, true, d) + tail;
    MemberApart(m, true, d, last, r);
    MemberApart(m, false, e, last, Minified(r));
    NoIndent(d, Quoted(m.key) + (Colon(true) + value));
    NoIndent(e, Quoted(m.key) + (Colon(false) + (Text(m.value, false, e) + (MemberEnd(false, last) + Minified(r)))));
    MinifiedQuoted(m.key, Colon(true) + value);
    MinifiedColon(value);
    CleanIsStable(m.value);
    TextMinifies(m.value, d, e, tail);
    MinifiedMemberEnd(last, r);
  }

  predicate CleanMembers(ms: seq<Member>) {
    forall m | m in ms :: !EndsInBackslash(m.key) && Clean(m.value)
  }

  lemma MembersSplit(ms: seq<Member>, format: bool, d: nat, r: Bytes)
    requires ms != []
    ensures Members(ms, format, d) + r
      == MemberText(ms[0], format, d, |ms| == 1) + (Members(ms[1..], format, d) + r)
    ensures CleanMembers(ms) <==> !EndsInBackslash(ms[0].key) && Clean(ms[0].value) && CleanMembers(ms[1..])
  {
    hide MemberText, Clean, EndsInBackslash;
    Assoc(MemberText(ms[0], format, d, |ms| == 1), Members(ms[1..], format, d), r);
    assert ms == [ms[0]] + ms[1..];
  }

  lemma {:induction false} MembersMinify(ms: seq<Member>, d: nat, e: nat, r: Bytes)
    requires CleanMembers(ms)
    ensures Minified(Members(ms, true, d) + r) == Members(ms, false, e) + Minified(r)
    decreases ms, 0
  {
    if ms == [] {
      assert Members(ms, true, d) + r == r;
    } else {
      hide Minified, Members, MemberText, Clean, CleanMembers, EndsInBackslash;
      MembersSplit(ms, true, d, r);
      MembersSplit(ms, false, e, Minified(r));
      MemberMinifies(ms[0], d, e, |ms| == 1, Members(ms[1..], true, d) + r);
      MembersMinify(ms[1..], d, e, r);
    }
  }

  // ---- all other trees ----

  /** The two differ at some position both have. */
  predicate Differ(a: Bytes, b: Bytes) {
    exists k :: 0 <= k < |a| && k < |b| && a[k] != b[k]
  }

  lemma DifferAfter(p: Bytes, a: Bytes, b: Bytes)
    requires Differ(a, b)
    ensures Differ(p + a, p + b)
  {
    var k :| 0 <= k < |a| && k < |b| && a[k] != b[k];
    assert (p + a)[|p| + k] == a[k] && (p + b)[|p| + k] == b[k];
  }

  lemma DifferBefore(a: Bytes, b: Bytes, q: Bytes)
    requires Differ(a, b)
    ensures Differ(a, b + q)
  {
    var k :| 0 <= k < |a| && k < |b| && a[k] != b[k];
    assert (b + q)[k] == b[k];
  }

  lemma DifferHere(p: Bytes, blank: byte, a: Bytes, b: Bytes)
    requires b != [] && b[0] != blank
    ensures Differ(p + ([blank] + a), p + b)
  {
    assert ([blank] + a)[0] != b[0];
    DifferAfter(p, [blank] + a, b);
  }

  lemma NoBlankFirst(j: J, d: nat)
    ensures Text(j, false, d)[0] > 32
  {
  }

  /** In the formatted text of a tree that is not stable the filter keeps a blank. */
  lemma {:induction false} TextDiffers(j: J, d: nat, e: nat, r: Bytes)
    requires !Stable(j)
    ensures Differ(Minified(Text(j, true, d) + r), Text(j, false, e))
    decreases j, 1
  {
    hide Minified, Inside, Elements, Members, Differ, Clean;
    match j
    case Arr(xs) =>
      var ef, eu := Elements(xs, true, d + 1), Elements(xs, false, e + 1);
      ArrayApart(ef, r);
      MinifiedOrdinary([LBRACKET], ef + ([RBRACKET] + r));
      ElementsDiffer(xs, d + 1, e + 1, [RBRACKET] + r);
      DifferBefore(Minified(ef + ([RBRACKET] + r)), eu, [RBRACKET]);
      DifferAfter([LBRACKET], Minified(ef + ([RBRACKET] + r)), eu + [RBRACKET]);
      Assoc([LBRACKET], eu, [RBRACKET]);
    case Obj(ms) =>
      var mf, mu := Members(ms, true, d + 1), Members(ms, false, e + 1);
      var tail := Closing(true, d) + r;
      ObjectApart(mf, true, d, r);
      MinifiedOpening(mf + tail);
      CleanObject(ms);
      MembersDiffer(ms, d + 1, e + 1, tail, Closing(false, e));
      DifferAfter(Opening(false), Minified(mf + tail), mu + Closing(false, e));
      Assoc(Opening(false), mu, Closing(false, e));
    case _ => LeafIsStable(j);
  }

  lemma CleanObject(ms: seq<Member>)
    ensures Clean(Obj(ms)) <==> CleanMembers(ms)
  {
  }

  lemma LeafIsStable(j: J)
    requires !j.Arr? && !j.Obj?
    ensures Stable(j)
  {
  }

  lemma {:induction false} ElementsDiffer(xs: seq<J>, d: nat, e: nat, r: Bytes)
    requires !StableElements(xs)
    ensures Differ(Minified(Elements(xs, true, d) + r), Elements(xs, false, e))
    decreases xs, 0
  {
    hide Minified, Inside, Text, Clean, Stable, Separator, Differ;
    var t := Text(xs[0], false, e);
    if |xs| == 1 {
      TextDiffers(xs[0], d, e, r);
    } else {
      var rest := xs[1..];
      var rf, ru := Elements(rest, true, d) + r, Elements(rest, false, e);
      var tail := Separator(true) + rf;
      ElementsSplit(xs, true, d, r);
      ElementsSplit(xs, false, e, []);
      assert Elements(xs, false, e) + [] == Elements(xs, false, e) && ru + [] == ru;
      SeparatorIsComma();
      if !Stable(xs[0]) {
        TextDiffers(xs[0], d, e, tail);
        DifferBefore(Minified(Text(xs[0], true, d) + tail), t, [COMMA] + ru);
      } else {
        TextMinifies(xs[0], d, e, tail);
        if Clean(xs[0]) {
          MinifiedSeparator(rf);
          ElementsDiffer(rest, d, e, r);
          DifferAfter([COMMA], Minified(rf), ru);
          DifferAfter(t, [COMMA] + Minified(rf), [COMMA] + ru);
        } else {
          InsidePlains([COMMA, SPACE], rf);
          RestStartsSolid(rest, e);
          BlankKept(t, COMMA, SPACE, Inside(rf), ru);
        }
      }
    }
  }

  lemma RestStartsSolid(xs: seq<J>, e: nat)
    requires xs != []
    ensures Elements(xs, false, e) != [] && Elements(xs, false, e)[0] > 32
  {
    NoBlankFirst(xs[0], e);
  }

  /** After the same text and one same byte, a blank on one side only. */
  lemma BlankKept(t: Bytes, c: byte, blank: byte, a: Bytes, b: Bytes)
    requires b != [] && b[0] != blank
    ensures Differ(t + ([c, blank] + a), t + ([c] + b))
  {
    DifferHere([c], blank, a, b);
    assert [c, blank] + a == [c] + ([blank] + a);
    DifferAfter(t, [c, blank] + a, [c] + b);
  }

  lemma {:induction false} MembersDiffer(ms: seq<Member>, d: nat, e: nat, r: Bytes, q: Bytes)
    requires !CleanMembers(ms) && q != [] && q[0] == RBRACE
    ensures Differ(Minified(Members(ms, true, d) + r), Members(ms, false, e) + q)
    decreases ms, 0
  {
    hide Minified, Members, MemberText, Clean, CleanMembers, EndsInBackslash, Differ;
    assert ms != [] by { NoMembersAreClean(); }
    var m, last := ms[0], |ms| == 1;
    var rf, ru := Members(ms[1..], true, d) + r, Members(ms[1..], false, e) + q;
    MembersSplit(ms, true, d, r);
    MembersSplit(ms, false, e, q);
    if !EndsInBackslash(m.key) && Clean(m.value) {
      MemberMinifies(m, d, e, last, rf);
      MembersDiffer(ms[1..], d, e, r, q);
      DifferAfter(MemberText(m, false, e, last), Minified(rf), ru);
    } else {
      NextMember(ms, e, q);
      MemberDiffers(m, d, e, last, rf, ru);
    }
  }

  lemma NoMembersAreClean()
    ensures CleanMembers([])
  {
  }

  /** What follows a member in the compact text: the next key's quote, or the closing brace. */
  lemma NextMember(ms: seq<Member>, e: nat, q: Bytes)
    requires ms != [] && q != [] && q[0] == RBRACE
    ensures var ru := Members(ms[1..], false, e) + q;
      ru != [] && ru[0] > 32
  {
    if |ms| > 1 {
      var rest := ms[1..];
      assert Members(rest, false, e) == MemberText(rest[0], false, e, |rest| == 1) + Members(rest[1..], false, e);
      MemberApart(rest[0], false, e, |rest| == 1, []);
      assert (MemberText(rest[0], false, e, |rest| == 1) + [])[0] == QUOTE;
    }
  }

  lemma {:induction false} MemberDiffers(m: Member, d: nat, e: nat, last: bool, rf: Bytes, ru: Bytes)
    requires EndsInBackslash(m.key) || !Clean(m.value)
    requires ru != [] && ru[0] > 32
    ensures Differ(Minified(MemberText(m, true, d, last) + rf), MemberText(m, false, e, last) + ru)
    decreases m, 2
  {
    hide Minified, Inside, MemberText, Quoted, Text, Indent, Colon, MemberEnd, Clean, Stable, EndsInBackslash, Differ;
    var tail := MemberEnd(true, last) + rf;
    var vf, vu := Text(m.value, true, d) + tail, Text(m.value, false, e) + (MemberEnd(false, last) + ru);
    var key := Quoted(m.key);
    MemberApart(m, true, d, last, rf);
    MemberApart(m, false, e, last, ru);
    NoIndent(d, key + (Colon(true) + vf));
    NoIndent(e, key + (Colon(false) + vu));
    MinifiedQuoted(m.key, Colon(true) + vf);
    if EndsInBackslash(m.key) {
      ColonIsTab();
      InsidePlains([COLON, TAB], vf);
      NoBlankFirst(m.value, e);
      BlankKept(key, COLON, TAB, Inside(vf), vu);
    } else {
      MinifiedColon(vf);
      ValueDiffers(m.value, d, e, last, rf, ru);
      DifferAfter([COLON], Minified(vf), vu);
      DifferAfter(key, [COLON] + Minified(vf), [COLON] + vu);
    }
  }

  lemma ColonIsTab()
    ensures Colon(true) == [COLON, TAB] && Colon(false) == [COLON]
  {
  }

  lemma {:induction false} ValueDiffers(j: J, d: nat, e: nat, last: bool, rf: Bytes, ru: Bytes)
    requires !Clean(j) && ru != [] && ru[0] > 32
    ensures Differ(Minified(Text(j, true, d) + (MemberEnd(true, last) + rf)),
        Text(j, false, e) + (MemberEnd(false, last) + ru))
    decreases j, 2
  {
    hide Minified, Inside, Text, Clean, Stable, Differ;
    var t := Text(j, false, e);
    var tail := MemberEnd(true, last) + rf;
    if !Stable(j) {
      TextDiffers(j, d, e, tail);
      DifferBefore(Minified(Text(j, true, d) + tail), t, MemberEnd(false, last) + ru);
    } else {
      TextMinifies(j, d, e, tail);
      if last {
        assert MemberEnd(true, last) == [NEWLINE] && MemberEnd(false, last) + ru == ru;
        InsidePlains([NEWLINE], rf);
        DifferHere(t, NEWLINE, Inside(rf), ru);
      } else {
        assert MemberEnd(true, last) == [COMMA, NEWLINE] && MemberEnd(false, last) == [COMMA];
        InsidePlains([COMMA, NEWLINE], rf);
        BlankKept(t, COMMA, NEWLINE, Inside(rf), ru);
      }
    }
  }

  /** Minifying a formatted print gives the compact print if and only if the tree is stable. */
  lemma MinifyOfFormatted(j: J)
    ensures Minified(Text(j, true, 0)) == Text(j, false, 0) <==> Stable(j)
  {
    var t := Text(j, true, 0);
    assert t + [] == t;
    if Stable(j) {
      TextMinifies(j, 0, 0, []);
      assert Minified([]) == [] && Inside([]) == [];
      assert Text(j, false, 0) + [] == Text(j, false, 0);
    } else {
      TextDiffers(j, 0, 0, []);
    }
  }

  /** Minifying the compact print of a stable tree leaves it alone. */
  lemma MinifyOfCompact(j: J)
    requires Stable(j)
    ensures Minified(Text(j, false, 0)) == Text(j, false, 0)
  {
    MinifyOfFormatted(j);
    MinifiedIsStable(Text(j, true, 0));
  }

  /** Blanks are kept: the formatted print of an object with the one key `\` is not minified to the
      compact one. */
  lemma BlanksAreKept()
    ensures var j := Obj([Member([BACKSLASH], Null)]);
      Minified(Text(j, true, 0)) != Text(j, false, 0)
  {
    var m := Member([BACKSLASH], Null);
    assert m in [m] && EndsInBackslash(m.key);
    MinifyOfFormatted(Obj([m]));
  }
}
