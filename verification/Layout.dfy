/** The formatted print is the compact one laid out by a pass over its bytes that knows only which brackets
    are open: a new line for every member, indented by one tab for every open container, a tab after each
    colon and a space after each comma of an array. */
module Layout {
  import opened Bytes
  import opened Json
  import opened Numbers
  import opened Strings
  import opened Rendering

  /** Where the literal around `i` ends: after a quote that no backslash precedes. */
  function LiteralEnd(t: Bytes, i: nat): (e: nat)
    requires i <= |t|
    ensures i <= e <= |t|
    decreases |t| - i
  {
    if i == |t| then i
    else if t[i] == '"' as int then i + 1
    else if t[i] == '\\' as int && i + 1 < |t| then LiteralEnd(t, i + 2)
    else LiteralEnd(t, i + 1)
  }

  /** A new line, indented for `n` open containers. */
  function NewLine(n: nat): Bytes {
    Lit("\n") + seq(n, i => '\t' as int)
  }

  /** What is written for a byte outside of strings; `open` has the brackets that are open, outermost first. */
  function Mark(c: byte, open: string): Bytes {
    if c == '{' as int then Lit("{") + NewLine(|open| + 1)
    else if c == '}' as int && open != "" then NewLine(|open| - 1) + Lit("}")
    else if c == ':' as int then Lit(":\t")
    else if c == ',' as int then
      if open != "" && open[|open| - 1] == '{' then Lit(",") + NewLine(|open|) else Lit(", ")
    else [c]
  }

  /** The brackets that are open after it. */
  function Open(c: byte, open: string): string {
    if c == '[' as int then open + "["
    else if c == '{' as int then open + "{"
    else if (c == ']' as int || c == '}' as int) && open != "" then open[..|open| - 1]
    else open
  }

  /** The text laid out: strings are left alone, and braces with nothing between them are kept at one level. */
  function LaidOut(t: Bytes, open: string): Bytes
    decreases |t|
  {
    if t == [] then []
    else if t[0] == '"' as int then t[..LiteralEnd(t, 1)] + LaidOut(t[LiteralEnd(t, 1)..], open)
    else if |t| > 1 && t[0] == '{' as int && t[1] == '}' as int then
      Lit("{") + NewLine(|open|) + Lit("}") + LaidOut(t[2..], open)
    else Mark(t[0], open) + LaidOut(t[1..], Open(t[0], open))
  }

  // ---- one token after another ----

  predicate Ordinary(c: byte) {
    c != QUOTE && c != LBRACKET && c != RBRACKET && c != LBRACE && c != RBRACE && c != COMMA && c != COLON
  }

  lemma MarkLaid(c: byte, r: Bytes, open: string)
    requires c != QUOTE && (c == LBRACE ==> r != [] && r[0] != RBRACE)
    ensures LaidOut([c] + r, open) == Mark(c, open) + LaidOut(r, Open(c, open))
  {
    hide Mark, Open, NewLine, LiteralEnd;
    var t := [c] + r;
    assert t[1..] == r && (r != [] ==> t[1] == r[0]);
  }

  lemma {:induction false} OrdinaryLaid(w: Bytes, r: Bytes, open: string)
    requires forall i :: 0 <= i < |w| ==> Ordinary(w[i])
    ensures LaidOut(w + r, open) == w + LaidOut(r, open)
  {
    hide LaidOut, NewLine;
    if w == [] {
      assert [] + r == r && [] + LaidOut(r, open) == LaidOut(r, open);
    } else {
      OrdinaryLaid(w[1..], r, open);
      MarkLaid(w[0], w[1..] + r, open);
      assert w + r == [w[0]] + (w[1..] + r);
      assert w + LaidOut(r, open) == [w[0]] + (w[1..] + LaidOut(r, open));
    }
  }

  /** The closing quote is where the escapes end. */
  lemma {:induction false} EscapeEnds(t: Bytes, i: nat, s: Bytes)
    requires At(t, i, Escape(s) + [QUOTE])
    ensures LiteralEnd(t, i) == i + |Escape(s)| + 1
    decreases |s|
  {
    hide EscapeByte;
    AtSplit(t, i, Escape(s), [QUOTE]);
    if s == [] {
      assert t[i..i + 1][0] == QUOTE;
    } else {
      var e, rest := EscapeByte(s[0]), Escape(s[1..]);
      assert Escape(s) + [QUOTE] == e + (rest + [QUOTE]);
      AtSplit(t, i, e, rest + [QUOTE]);
      EscapeEnds(t, i + |e|, s[1..]);
      ByteIsPassed(t, i, s[0]);
    }
  }

  lemma ByteIsPassed(t: Bytes, i: nat, c: byte)
    requires At(t, i, EscapeByte(c)) && i + |EscapeByte(c)| < |t|
    ensures LiteralEnd(t, i) == LiteralEnd(t, i + |EscapeByte(c)|)
  {
    var e := EscapeByte(c);
    forall k | 0 <= k < |e| ensures t[i + k] == e[k] {
      assert t[i..i + |e|][k] == t[i + k];
    }
    assert t[i + 0] == e[0];
    if |e| > 1 {
      assert t[i + 1] == e[1];
    }
    if |e| == 6 {
      var p := i + 2;
      assert t[p] == e[2] && t[p + 1] == e[3] && t[p + 2] == e[4] && t[p + 3] == e[5];
      assert LiteralEnd(t, p + 3) == LiteralEnd(t, p + 4);
      assert LiteralEnd(t, p + 2) == LiteralEnd(t, p + 3);
      assert LiteralEnd(t, p + 1) == LiteralEnd(t, p + 2);
    }
  }

  lemma QuotedLaid(s: Bytes, r: Bytes, open: string)
    ensures LaidOut(Quoted(s) + r, open) == Quoted(s) + LaidOut(r, open)
  {
    hide Escape, LiteralEnd, Mark, Open, NewLine;
    var t := Quoted(s) + r;
    var w := Escape(s) + [QUOTE];
    assert t[1..1 + |w|] == w;
    EscapeEnds(t, 1, s);
    assert t[..|Quoted(s)|] == Quoted(s) && t[|Quoted(s)|..] == r;
  }

  lemma WordsLaid(r: Bytes, open: string)
    ensures LaidOut(NULL_WORD + r, open) == NULL_WORD + LaidOut(r, open)
    ensures LaidOut(FALSE_WORD + r, open) == FALSE_WORD + LaidOut(r, open)
    ensures LaidOut(TRUE_WORD + r, open) == TRUE_WORD + LaidOut(r, open)
  {
    hide LaidOut;
    OrdinaryLaid(NULL_WORD, r, open);
    OrdinaryLaid(FALSE_WORD, r, open);
    OrdinaryLaid(TRUE_WORD, r, open);
  }

  lemma IntLaid(n: int, r: Bytes, open: string)
    ensures LaidOut(IntText(n) + r, open) == IntText(n) + LaidOut(r, open)
  {
    hide LaidOut;
    var t := IntText(n);
    assert forall i :: 0 <= i < |t| ==> IsNumberChar(t[i]);
    OrdinaryLaid(t, r, open);
  }

  lemma MarksAreBytes()
    ensures Lit("{") == [LBRACE] && Lit("}") == [RBRACE]
    ensures Lit(",") == [COMMA] && Lit(", ") == [COMMA, SPACE] && Lit(":\t") == [COLON, TAB]
  {
  }

  lemma CommaLaid(r: Bytes, open: string)
    ensures LaidOut([COMMA] + r, open)
      == (if open != "" && open[|open| - 1] == '{' then [COMMA] + NewLine(|open|) else [COMMA, SPACE])
         + LaidOut(r, open)
  {
    hide LaidOut, NewLine, Lit;
    MarksAreBytes();
    MarkLaid(COMMA, r, open);
  }

  lemma ColonLaid(r: Bytes, open: string)
    ensures LaidOut([COLON] + r, open) == [COLON, TAB] + LaidOut(r, open)
  {
    hide LaidOut, NewLine, Lit;
    MarksAreBytes();
    MarkLaid(COLON, r, open);
  }

  lemma BracketsLaid(r: Bytes, open: string)
    ensures LaidOut([LBRACKET] + r, open) == [LBRACKET] + LaidOut(r, open + "[")
    ensures LaidOut([RBRACKET] + r, open + "[") == [RBRACKET] + LaidOut(r, open)
  {
    hide LaidOut, NewLine, Lit;
    MarkLaid(LBRACKET, r, open);
    MarkLaid(RBRACKET, r, open + "[");
    assert (open + "[")[..|open|] == open;
  }

  lemma OpeningBraceLaid(r: Bytes, open: string)
    requires r != [] && r[0] != RBRACE
    ensures LaidOut([LBRACE] + r, open) == [LBRACE] + NewLine(|open| + 1) + LaidOut(r, open + "{")
  {
    hide LaidOut, NewLine, Lit;
    MarksAreBytes();
    MarkLaid(LBRACE, r, open);
  }

  lemma AtEmptyBraces(t: Bytes, open: string)
    requires |t| > 1 && t[0] == LBRACE && t[1] == RBRACE
    ensures LaidOut(t, open) == Lit("{") + NewLine(|open|) + Lit("}") + LaidOut(t[2..], open)
  {
    hide NewLine, Lit, Mark, Open, LiteralEnd;
  }

  lemma EmptyBracesLaid(r: Bytes, open: string)
    ensures LaidOut([LBRACE] + ([RBRACE] + r), open) == [LBRACE] + NewLine(|open|) + [RBRACE] + LaidOut(r, open)
  {
    hide LaidOut, NewLine, Lit;
    var t := [LBRACE] + ([RBRACE] + r);
    MarksAreBytes();
    AtEmptyBraces(t, open);
    assert t[2..] == r;
  }

  lemma ClosingBraceLaid(r: Bytes, open: string)
    ensures LaidOut([RBRACE] + r, open + "{") == NewLine(|open|) + [RBRACE] + LaidOut(r, open)
  {
    hide LaidOut, NewLine, Lit;
    MarksAreBytes();
    MarkLaid(RBRACE, r, open + "{");
    assert (open + "{")[..|open|] == open;
  }

  // ---- trees ----

  lemma {:induction false} TextLaid(j: J, r: Bytes, open: string)
    ensures LaidOut(Text(j, false, |open|) + r, open) == Text(j, true, |open|) + LaidOut(r, open)
    decreases j, 1
  {
    hide LaidOut, Elements, Members, Quoted, IntText, NewLine;
    match j
    case Num(v) => IntLaid(ValueInt(v), r, open);
    case Str(s) => QuotedLaid(s, r, open);
    case Arr(xs) =>
      var a, b := Elements(xs, false, |open| + 1), Elements(xs, true, |open| + 1);
      assert [LBRACKET] + a + [RBRACKET] + r == [LBRACKET] + (a + ([RBRACKET] + r));
      BracketsLaid(a + ([RBRACKET] + r), open);
      BracketsLaid(r, open);
      ElementsLaid(xs, [RBRACKET] + r, open + "[");
      assert [LBRACKET] + (b + ([RBRACKET] + LaidOut(r, open))) == [LBRACKET] + b + [RBRACKET] + LaidOut(r, open);
    case Obj(ms) => ObjectLaid(ms, r, open);
    case _ => WordsLaid(r, open);
  }

  lemma {:induction false} ElementsLaid(xs: seq<J>, r: Bytes, open: string)
    requires open != "" && open[|open| - 1] == '['
    ensures LaidOut(Elements(xs, false, |open|) + r, open) == Elements(xs, true, |open|) + LaidOut(r, open)
    decreases xs, 0
  {
    hide LaidOut, Text;
    if xs == [] {
      assert [] + r == r && [] + LaidOut(r, open) == LaidOut(r, open);
    } else if |xs| == 1 {
      TextLaid(xs[0], r, open);
    } else {
      var a, b := Text(xs[0], false, |open|), Elements(xs[1..], false, |open|);
      var c, d := Text(xs[0], true, |open|), Elements(xs[1..], true, |open|);
      assert a + [COMMA] + b + r == a + ([COMMA] + (b + r));
      TextLaid(xs[0], [COMMA] + (b + r), open);
      CommaLaid(b + r, open);
      ElementsLaid(xs[1..], r, open);
      assert c + ([COMMA, SPACE] + (d + LaidOut(r, open))) == c + [COMMA, SPACE] + d + LaidOut(r, open);
    }
  }

  lemma NewLines(n: nat)
    ensures NewLine(n) == [NEWLINE] + Tabs(n)
  {
    assert NewLine(n) == [NEWLINE] + Tabs(n);
  }

  lemma {:induction false} ObjectLaid(ms: seq<Member>, r: Bytes, open: string)
    ensures LaidOut(Text(Obj(ms), false, |open|) + r, open) == Text(Obj(ms), true, |open|) + LaidOut(r, open)
    decreases ms, 2
  {
    hide LaidOut, Members, NewLine, Tabs;
    var d := |open|;
    NewLines(d);
    if ms == [] {
      NoElements(true, d + 1);
      NoElements(false, d + 1);
      assert [LBRACE] + [] + [RBRACE] + r == [LBRACE] + ([RBRACE] + r);
      EmptyBracesLaid(r, open);
      EmptyObjectLaid(Tabs(d), LaidOut(r, open));
    } else {
      var a, b := Members(ms, false, d + 1), Members(ms, true, d + 1);
      NewLines(d + 1);
      MembersBegin(ms, d + 1);
      assert [LBRACE] + a + [RBRACE] + r == [LBRACE] + (a + ([RBRACE] + r));
      OpeningBraceLaid(a + ([RBRACE] + r), open);
      MembersLaid(ms, r, open);
      FullObjectLaid(Tabs(d + 1), LaidOut(a + ([RBRACE] + r), open + "{"), b, Tabs(d), LaidOut(r, open));
    }
  }

  lemma EmptyObjectLaid(tabs: Bytes, r: Bytes)
    ensures [LBRACE] + ([NEWLINE] + tabs) + [RBRACE] + r == [LBRACE, NEWLINE] + [] + (tabs + [RBRACE]) + r
  {
  }

  lemma FullObjectLaid(tabs: Bytes, laid: Bytes, b: Bytes, outer: Bytes, r: Bytes)
    requires tabs + laid == b + outer + [RBRACE] + r
    ensures [LBRACE] + ([NEWLINE] + tabs) + laid == [LBRACE, NEWLINE] + b + (outer + [RBRACE]) + r
  {
    assert [LBRACE] + ([NEWLINE] + tabs) + laid == [LBRACE, NEWLINE] + (tabs + laid);
  }

  lemma MembersBegin(ms: seq<Member>, depth: nat)
    requires ms != []
    ensures Members(ms, false, depth) != [] && Members(ms, false, depth)[0] == QUOTE
  {
    hide Escape, Text;
  }

  /** The members, the brace that closes them and what follows; the first is indented already. */
  lemma {:induction false} MembersLaid(ms: seq<Member>, r: Bytes, open: string)
    requires ms != []
    ensures Tabs(|open| + 1) + LaidOut(Members(ms, false, |open| + 1) + ([RBRACE] + r), open + "{")
      == Members(ms, true, |open| + 1) + Tabs(|open|) + [RBRACE] + LaidOut(r, open)
    decreases ms, 0
  {
    hide LaidOut, Text, Quoted, NewLine, Tabs;
    var d, m, last, inner := |open| + 1, ms[0], |ms| == 1, open + "{";
    var q, a, b := Quoted(m.key), Text(m.value, false, d), Text(m.value, true, d);
    NewLines(d);
    NewLines(|open|);
    if last {
      var more := [RBRACE] + r;
      NoElements(true, d);
      NoElements(false, d);
      LastPieces(q, a, more);
      QuotedLaid(m.key, [COLON] + (a + more), inner);
      ColonLaid(a + more, inner);
      TextLaid(m.value, more, inner);
      ClosingBraceLaid(r, open);
      LastLaid(Tabs(d), q, b, Tabs(|open|), LaidOut(r, open));
    } else {
      var rest, laid := Members(ms[1..], false, d) + ([RBRACE] + r), Members(ms[1..], true, d);
      MorePieces(q, a, Members(ms[1..], false, d), [RBRACE] + r);
      QuotedLaid(m.key, [COLON] + (a + ([COMMA] + rest)), inner);
      ColonLaid(a + ([COMMA] + rest), inner);
      TextLaid(m.value, [COMMA] + rest, inner);
      CommaLaid(rest, inner);
      MembersLaid(ms[1..], r, open);
      MoreLaid(Tabs(d), q, b, LaidOut(rest, inner), laid, Tabs(|open|), LaidOut(r, open));
    }
  }

  lemma LastPieces(q: Bytes, a: Bytes, more: Bytes)
    ensures ([] + q + [COLON] + a + ([] + [])) + [] + more == q + ([COLON] + (a + more))
  {
  }

  lemma MorePieces(q: Bytes, a: Bytes, rest: Bytes, more: Bytes)
    ensures ([] + q + [COLON] + a + ([COMMA] + [])) + rest + more == q + ([COLON] + (a + ([COMMA] + (rest + more))))
  {
  }

  lemma LastLaid(tabs: Bytes, q: Bytes, b: Bytes, outer: Bytes, r: Bytes)
    ensures tabs + (q + ([COLON, TAB] + (b + (([NEWLINE] + outer) + [RBRACE] + r))))
      == (tabs + q + [COLON, TAB] + b + ([] + [NEWLINE])) + [] + outer + [RBRACE] + r
  {
  }

  lemma MoreLaid(tabs: Bytes, q: Bytes, b: Bytes, rest: Bytes, laid: Bytes, outer: Bytes, r: Bytes)
    requires tabs + rest == laid + outer + [RBRACE] + r
    ensures tabs + (q + ([COLON, TAB] + (b + (([COMMA] + ([NEWLINE] + tabs)) + rest))))
      == (tabs + q + [COLON, TAB] + b + ([COMMA] + [NEWLINE])) + laid + outer + [RBRACE] + r
  {
    assert tabs + (q + ([COLON, TAB] + (b + (([COMMA] + ([NEWLINE] + tabs)) + rest))))
      == (tabs + q + [COLON, TAB] + b + ([COMMA] + [NEWLINE])) + (tabs + rest);
  }

  /** cJSON_Print writes what laying out the text of cJSON_PrintUnformatted gives. */
  lemma FormattedIsLaidOut(j: J)
    ensures Text(j, true, 0) == LaidOut(Text(j, false, 0), "")
  {
    hide LaidOut, Text;
    TextLaid(j, [], "");
    NothingLaid();
    assert Text(j, false, 0) + [] == Text(j, false, 0) && Text(j, true, 0) + [] == Text(j, true, 0);
  }

  lemma NothingLaid()
    ensures LaidOut([], "") == []
  {
  }
}
