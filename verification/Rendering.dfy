/** The text of a tree, compact or formatted: what the printer is meant to produce. */
module Rendering {
  import opened Bytes
  import opened Json
  import opened Numbers
  import opened Strings

  const NULL_WORD: Bytes := [110, 117, 108, 108]
  const FALSE_WORD: Bytes := [102, 97, 108, 115, 101]
  const TRUE_WORD: Bytes := [116, 114, 117, 101]

  function Tabs(n: nat): (t: Bytes)
    ensures |t| == n && forall i :: 0 <= i < n ==> t[i] == TAB
  {
    seq(n, i => TAB)
  }

  /** The text of `j` printed `depth` containers deep. */
  function Text(j: J, format: bool, depth: nat): (t: Bytes)
    ensures |t| > 0
    decreases j, 1
  {
    match j
    case Null => NULL_WORD
    case False => FALSE_WORD
    case True => TRUE_WORD
    case Num(v) => IntText(ValueInt(v))
    case Str(s) => Quoted(s)
    case Arr(xs) => [LBRACKET] + Elements(xs, format, depth + 1) + [RBRACKET]
    case Obj(ms) => Opening(format) + Members(ms, format, depth + 1) + Closing(format, depth)
  }

  function Separator(format: bool): Bytes {
    if format then [COMMA, SPACE] else [COMMA]
  }

  function Opening(format: bool): Bytes {
    if format then [LBRACE, NEWLINE] else [LBRACE]
  }

  function Closing(format: bool, depth: nat): Bytes {
    if format then Tabs(depth) + [RBRACE] else [RBRACE]
  }

  function Indent(format: bool, depth: nat): Bytes {
    if format then Tabs(depth) else []
  }

  function Colon(format: bool): Bytes {
    if format then [COLON, TAB] else [COLON]
  }

  /** What follows a member's value. */
  function MemberEnd(format: bool, last: bool): Bytes {
    (if last then [] else [COMMA]) + (if format then [NEWLINE] else [])
  }

  function Elements(xs: seq<J>, format: bool, depth: nat): (t: Bytes)
    decreases xs, 0
  {
    if xs == [] then []
    else if |xs| == 1 then Text(xs[0], format, depth)
    else Text(xs[0], format, depth) + Separator(format) + Elements(xs[1..], format, depth)
  }

  function MemberText(m: Member, format: bool, depth: nat, last: bool): (t: Bytes)
    decreases m, 2
  {
    Indent(format, depth) + Quoted(m.key) + Colon(format) + Text(m.value, format, depth) + MemberEnd(format, last)
  }

  function Members(ms: seq<Member>, format: bool, depth: nat): (t: Bytes)
    decreases ms, 0
  {
    if ms == [] then []
    else MemberText(ms[0], format, depth, |ms| == 1) + Members(ms[1..], format, depth)
  }

  lemma NoElements(format: bool, depth: nat)
    ensures Elements([], format, depth) == [] && Members([], format, depth) == []
  {
  }

  // ---- a text holds no NUL, so that its end can be found ----

  lemma {:induction false} TextIsNulFree(j: J, format: bool, depth: nat)
    ensures NulFree(Text(j, format, depth))
    decreases j, 1
  {
    hide Elements, Members, Quoted, IntText;
    match j
    case Num(v) =>
      var t := IntText(ValueInt(v));
      assert forall i :: 0 <= i < |t| ==> IsNumberChar(t[i]);
    case Str(s) => EscapeIsNulFree(s);
    case Arr(xs) => ElementsAreNulFree(xs, format, depth + 1);
    case Obj(ms) => MembersAreNulFree(ms, format, depth + 1);
    case _ =>
  }

  lemma {:induction false} ElementsAreNulFree(xs: seq<J>, format: bool, depth: nat)
    ensures NulFree(Elements(xs, format, depth))
    decreases xs, 0
  {
    hide Text;
    if xs != [] {
      TextIsNulFree(xs[0], format, depth);
      ElementsAreNulFree(xs[1..], format, depth);
    }
  }

  lemma NulFreeTogether(a: Bytes, b: Bytes)
    requires NulFree(a) && NulFree(b)
    ensures NulFree(a + b)
  {
  }

  lemma MarksAreNulFree(format: bool, depth: nat, last: bool)
    ensures NulFree(Indent(format, depth)) && NulFree(Colon(format)) && NulFree(MemberEnd(format, last))
  {
  }

  lemma {:induction false} MembersAreNulFree(ms: seq<Member>, format: bool, depth: nat)
    ensures NulFree(Members(ms, format, depth))
    decreases ms, 0
  {
    hide Text, Quoted, NulFree, Indent, Colon, MemberEnd;
    if ms == [] {
      NothingIsNulFree();
    } else {
      var m, last := ms[0], |ms| == 1;
      MarksAreNulFree(format, depth, last);
      EscapeIsNulFree(m.key);
      TextIsNulFree(m.value, format, depth);
      NulFreeTogether(Indent(format, depth), Quoted(m.key));
      NulFreeTogether(Indent(format, depth) + Quoted(m.key), Colon(format));
      NulFreeTogether(Indent(format, depth) + Quoted(m.key) + Colon(format), Text(m.value, format, depth));
      NulFreeTogether(Indent(format, depth) + Quoted(m.key) + Colon(format) + Text(m.value, format, depth),
          MemberEnd(format, last));
      MembersAreNulFree(ms[1..], format, depth);
      NulFreeTogether(MemberText(m, format, depth, last), Members(ms[1..], format, depth));
    }
  }

  lemma NothingIsNulFree()
    ensures NulFree([])
  {
  }
}
