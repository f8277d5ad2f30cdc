/** The wire form of a message: what toJSONString writes and fromJSONString reads. */
module Wire {
  import opened Bytes
  import opened Json
  import opened Numbers
  import opened Strings
  import opened Grammar
  import opened Rendering
  import opened Soundness
  import opened RoundTrip
  import opened Compare
  import opened Duplicates

  const CLIENT_ID: Bytes := [99, 108, 105, 101, 110, 116, 73, 68]
  const TYPE: Bytes := [116, 121, 112, 101]
  const SUB_TYPE: Bytes := [115, 117, 98, 84, 121, 112, 101]
  const CONTENT: Bytes := [99, 111, 110, 116, 101, 110, 116]

  /** A message as a value; `content` is the tree it owns, if any. */
  datatype Letter = Letter(clientID: int, kind: int, subType: int, content: Option<J>)

  predicate IsInt(n: int) {
    INT_MIN <= n <= INT_MAX
  }

  predicate Ints(m: Letter) {
    IsInt(m.clientID) && IsInt(m.kind) && IsInt(m.subType)
  }

  /** The object that is printed: the content is left out if there is none or it is too deep to copy. */
  function Envelope(m: Letter): J {
    Obj([Member(CLIENT_ID, Num(m.clientID as real)), Member(TYPE, Num(m.kind as real)),
        Member(SUB_TYPE, Num(m.subType as real))]
        + ContentMember(m.content))
  }

  function ContentMember(content: Option<J>): seq<Member> {
    if content.Some? && DepthOK(content.value, 0) then [Member(CONTENT, content.value)] else []
  }

  /** What is read from a parsed tree; None stands for the exception. */
  function Open(j: J): Option<Letter> {
    if !j.Obj? then None
    else
      match (Find(j.members, CLIENT_ID, true), Find(j.members, TYPE, true), Find(j.members, SUB_TYPE, true),
          Find(j.members, CONTENT, true))
      case (Some(Num(id)), Some(Num(kind)), Some(Num(subType)), Some(Obj(ms))) =>
        Some(Letter(ValueInt(id), ValueInt(kind), ValueInt(subType), CopyOf(Obj(ms))))
      case _ => None
  }

  /** toJSONString. */
  function Send(m: Letter): Bytes {
    Text(Envelope(m), false, 0)
  }

  /** fromJSONString. */
  function Receive(text: Bytes): Option<Letter> {
    match Parse(text)
    case None => None
    case Some(j) => Open(j)
  }

  predicate Sendable(m: Letter) {
    Ints(m) && (m.content.Some? ==> Printable(m.content.value))
  }

  /** The messages that survive the wire. */
  predicate Arrives(m: Letter) {
    m.content.Some? && m.content.value.Obj? && NestingAtMost(m.content.value, 999)
  }

  /** Messages whose content is an object of nesting at most 999, and only those, survive the wire;
      any other is rejected at the receiving end. */
  lemma WireRoundTrip(m: Letter)
    requires Sendable(m)
    ensures Receive(Send(m)) == if Arrives(m) then Some(m) else None
  {
    hide Text, Parse, DepthOK, NestingAtMost, Printable, Find;
    EnvelopeIsPrintable(m);
    ParseOfPrint(Envelope(m), false);
    EnvelopeNesting(m);
    OpenEnvelope(m);
    if m.content.Some? && NestingAtMost(m.content.value, NESTING_LIMIT - 1) {
      NestingIsCopyable(m.content.value, NESTING_LIMIT - 1, 0);
    }
  }

  lemma NumberIsInt(n: int)
    requires IsInt(n)
    ensures ValueInt(n as real) == n && IsInt32(n as real)
  {
  }

  lemma EnvelopeIsPrintable(m: Letter)
    requires Sendable(m)
    ensures Printable(Envelope(m))
  {
    NumberIsInt(m.clientID);
    NumberIsInt(m.kind);
    NumberIsInt(m.subType);
    hide IsInt32, DepthOK;
  }

  lemma EnvelopeNesting(m: Letter)
    ensures NestingAtMost(Envelope(m), NESTING_LIMIT) <==>
      (ContentMember(m.content) != [] ==> NestingAtMost(m.content.value, NESTING_LIMIT - 1))
  {
    hide DepthOK;
    var ms := Envelope(m).members;
    if ContentMember(m.content) != [] {
      assert ms[3] == Member(CONTENT, m.content.value) && ms[3] in ms;
    }
  }

  lemma FindStep(m: Member, rest: seq<Member>, key: Bytes)
    ensures Find([m] + rest, key, true) == if m.key == key then Some(m.value) else Find(rest, key, true)
  {
    assert ([m] + rest)[1..] == rest;
  }

  lemma NamesDiffer()
    ensures CLIENT_ID != TYPE && CLIENT_ID != SUB_TYPE && CLIENT_ID != CONTENT
    ensures TYPE != SUB_TYPE && TYPE != CONTENT && SUB_TYPE != CONTENT
  {
    assert CLIENT_ID[0] == 99 && TYPE[0] == 116 && SUB_TYPE[0] == 115 && CONTENT[0] == 99;
    assert |CLIENT_ID| == 8 && |CONTENT| == 7;
  }

  lemma FindField(a: Member, b: Member, c: Member, rest: seq<Member>, key: Bytes)
    ensures Find([a, b, c] + rest, key, true) ==
      if a.key == key then Some(a.value) else if b.key == key then Some(b.value) else if c.key == key then Some(c.value)
      else Find(rest, key, true)
  {
    hide Find;
    assert [a, b, c] + rest == [a] + ([b] + ([c] + rest));
    FindStep(a, [b] + ([c] + rest), key);
    FindStep(b, [c] + rest, key);
    FindStep(c, rest, key);
  }

  lemma ContentFound(content: Option<J>)
    ensures Find(ContentMember(content), CONTENT, true) == if ContentMember(content) == [] then None else content
  {
    hide DepthOK;
    if ContentMember(content) != [] {
      FindStep(Member(CONTENT, content.value), [], CONTENT);
      assert [Member(CONTENT, content.value)] + [] == ContentMember(content);
    }
  }

  /** Opening an envelope gives the message back when there is an object in it. */
  lemma OpenEnvelope(m: Letter)
    requires Ints(m)
    ensures Open(Envelope(m)) ==
      if ContentMember(m.content) != [] && m.content.value.Obj? then Some(m) else None
  {
    hide Find, DepthOK, ValueInt;
    var ms := Envelope(m).members;
    NamesDiffer();
    FindField(ms[0], ms[1], ms[2], ContentMember(m.content), CLIENT_ID);
    FindField(ms[0], ms[1], ms[2], ContentMember(m.content), TYPE);
    FindField(ms[0], ms[1], ms[2], ContentMember(m.content), SUB_TYPE);
    FindField(ms[0], ms[1], ms[2], ContentMember(m.content), CONTENT);
    ContentFound(m.content);
    NumberIsInt(m.clientID);
    NumberIsInt(m.kind);
    NumberIsInt(m.subType);
  }

  /** Whatever text it came from, a received message has int fields and content that survives the wire;
      with int32 numbers it can be sent on and arrives as it is. */
  lemma ReceivedMessages(text: Bytes)
    requires Receive(text).Some?
    ensures var m := Receive(text).value;
      Ints(m) && Arrives(m) && (IntValued(m.content.value) ==> Sendable(m) && Receive(Send(m)) == Some(m))
  {
    hide ParseValue, Start, DepthOK, NestingAtMost, Find, CleanStrings, IntValued, Printable, Send;
    var buffer := text + [NUL];
    ParsedTrees(buffer, Start(buffer), 0);
    var ms := Parse(text).value.members;
    MembersNest(ms, NESTING_LIMIT);
    var m := Receive(text).value;
    var content :| content in ms && content.value == Find(ms, CONTENT, true).value;
    NestingIsCopyable(content.value, NESTING_LIMIT - 1, 0);
    if IntValued(m.content.value) {
      IntValuedAndCleanIsPrintable(m.content.value);
      WireRoundTrip(m);
    }
  }

  lemma MembersNest(ms: seq<Member>, n: int)
    ensures NestingAtMost(Obj(ms), n) ==> forall m | m in ms :: NestingAtMost(m.value, n - 1)
    ensures CleanStrings(Obj(ms)) ==> forall m | m in ms :: CleanStrings(m.value)
  {
  }

  // ---- the bytes that are sent, and the names that are read ----

  predicate IsPlainKey(key: Bytes) {
    forall i :: 0 <= i < |key| ==> key[i] >= 32 && key[i] != QUOTE && key[i] != BACKSLASH
  }

  lemma {:induction false} PlainKey(key: Bytes)
    requires IsPlainKey(key)
    ensures Escape(key) == key
  {
    if key != [] {
      PlainKey(key[1..]);
      assert key == [key[0]] + key[1..];
    }
  }

  /** A member named in plain letters, as it is printed. */
  lemma PlainMember(m: Member, last: bool)
    requires IsPlainKey(m.key)
    ensures MemberText(m, false, 1, last)
      == [QUOTE] + m.key + [QUOTE, COLON] + Text(m.value, false, 1) + if last then [] else [COMMA]
  {
    hide Text, Escape;
    PlainKey(m.key);
    assert [] + ([QUOTE] + m.key + [QUOTE]) + [COLON] == [QUOTE] + m.key + [QUOTE, COLON];
  }

  lemma NumberText(n: int)
    requires IsInt(n)
    ensures Text(Num(n as real), false, 1) == IntText(n)
  {
    NumberIsInt(n);
  }

  lemma NamesArePlain()
    ensures IsPlainKey(CLIENT_ID) && IsPlainKey(TYPE) && IsPlainKey(SUB_TYPE) && IsPlainKey(CONTENT)
  {
  }

  lemma NamesAreWords()
    ensures Lit("{\"clientID\":") == [LBRACE] + ([QUOTE] + CLIENT_ID + [QUOTE, COLON])
    ensures Lit(",\"type\":") == [COMMA] + ([QUOTE] + TYPE + [QUOTE, COLON])
    ensures Lit(",\"subType\":") == [COMMA] + ([QUOTE] + SUB_TYPE + [QUOTE, COLON])
    ensures Lit(",\"content\":") == [COMMA] + ([QUOTE] + CONTENT + [QUOTE, COLON])
    ensures Lit("}") == [RBRACE]
  {
  }

  lemma LettersAreWords()
    ensures Lit("clientID") == CLIENT_ID && Lit("type") == TYPE && Lit("subType") == SUB_TYPE
      && Lit("content") == CONTENT
  {
  }

  lemma MembersStep(ms: seq<Member>)
    requires ms != []
    ensures Rendering.Members(ms, false, 1)
      == MemberText(ms[0], false, 1, |ms| == 1) + Rendering.Members(ms[1..], false, 1)
  {
    hide MemberText;
  }

  /** The members of an envelope from the content on. */
  lemma ContentText(content: Option<J>)
    ensures [COMMA] + Rendering.Members(ContentMember(content), false, 1)
      == (if ContentMember(content) == [] then [COMMA] else Lit(",\"content\":") + Text(content.value, false, 1))
  {
    hide Text, DepthOK, Lit;
    NoElements(false, 1);
    if ContentMember(content) != [] {
      var ms := ContentMember(content);
      NamesArePlain();
      NamesAreWords();
      PlainMember(ms[0], true);
      MembersStep(ms);
      assert ms[1..] == [];
      Pieces(CONTENT, Text(content.value, false, 1));
    }
  }

  lemma Pieces(key: Bytes, t: Bytes)
    ensures [COMMA] + (([QUOTE] + key + [QUOTE, COLON] + t + []) + [])
      == [COMMA] + ([QUOTE] + key + [QUOTE, COLON]) + t
  {
  }

  /** A number member and what follows it. */
  lemma NumberMember(name: Bytes, n: int, rest: seq<Member>)
    requires IsPlainKey(name) && IsInt(n)
    ensures var ms := [Member(name, Num(n as real))] + rest;
      Rendering.Members(ms, false, 1)
        == ([QUOTE] + name + [QUOTE, COLON]) + IntText(n)
           + if rest == [] then [] else [COMMA] + Rendering.Members(rest, false, 1)
  {
    hide Text, Rendering.Members, IntText, IsPlainKey;
    var ms := [Member(name, Num(n as real))] + rest;
    var t := [QUOTE] + name + [QUOTE, COLON];
    assert ms[1..] == rest;
    NoElements(false, 1);
    MembersStep(ms);
    PlainMember(ms[0], rest == []);
    NumberText(n);
    if rest == [] {
      assert t + IntText(n) + [] + [] == t + IntText(n) + [];
    } else {
      assert t + IntText(n) + [COMMA] + Rendering.Members(rest, false, 1)
        == t + IntText(n) + ([COMMA] + Rendering.Members(rest, false, 1));
    }
  }

  /** toJSONString writes these bytes. */
  lemma SentText(m: Letter)
    requires Ints(m)
    ensures Send(m)
      == Lit("{\"clientID\":") + IntText(m.clientID) + Lit(",\"type\":") + IntText(m.kind)
         + Lit(",\"subType\":") + IntText(m.subType)
         + (if m.content.Some? && DepthOK(m.content.value, 0)
            then Lit(",\"content\":") + Text(m.content.value, false, 1) else [])
         + Lit("}")
  {
    hide Text, DepthOK, IntText, Rendering.Members, Lit, IsPlainKey;
    var c := ContentMember(m.content);
    var three := [Member(SUB_TYPE, Num(m.subType as real))] + c;
    var two := [Member(TYPE, Num(m.kind as real))] + three;
    var all := [Member(CLIENT_ID, Num(m.clientID as real))] + two;
    NamesArePlain();
    NamesAreWords();
    assert Envelope(m).members == all;
    NumberMember(CLIENT_ID, m.clientID, two);
    NumberMember(TYPE, m.kind, three);
    NumberMember(SUB_TYPE, m.subType, c);
    ContentText(m.content);
    ObjectText(all);
    var tail := if c == [] then [] else Lit(",\"content\":") + Text(m.content.value, false, 1);
    SentPieces([QUOTE] + CLIENT_ID + [QUOTE, COLON], IntText(m.clientID), [QUOTE] + TYPE + [QUOTE, COLON],
               IntText(m.kind), [QUOTE] + SUB_TYPE + [QUOTE, COLON], IntText(m.subType), tail);
  }

  lemma ObjectText(ms: seq<Member>)
    ensures Text(Obj(ms), false, 0) == [LBRACE] + Rendering.Members(ms, false, 1) + [RBRACE]
  {
    hide Rendering.Members;
  }

  lemma SentPieces(a: Bytes, x: Bytes, b: Bytes, y: Bytes, c: Bytes, z: Bytes, tail: Bytes)
    ensures [LBRACE] + (a + x + ([COMMA] + (b + y + ([COMMA] + (c + z + tail))))) + [RBRACE]
      == ([LBRACE] + a) + x + ([COMMA] + b) + y + ([COMMA] + c) + z + tail + [RBRACE]
  {
  }

  /** The first member of that name has that value. */
  ghost predicate First(ms: seq<Member>, name: Bytes, value: J) {
    exists i :: 0 <= i < |ms| && ms[i] == Member(name, value) && forall k :: 0 <= k < i ==> ms[k].key != name
  }

  /** The first member of that name is a number with that integer. */
  ghost predicate FirstInt(ms: seq<Member>, name: Bytes, n: int) {
    exists v :: First(ms, name, Num(v)) && ValueInt(v) == n
  }

  lemma {:induction false} FoundIsFirst(ms: seq<Member>, name: Bytes, value: J)
    ensures Find(ms, name, true) == Some(value) <==> First(ms, name, value)
  {
    if ms != [] {
      FoundIsFirst(ms[1..], name, value);
      FirstStep(ms, name, value);
    }
  }

  lemma FirstStep(ms: seq<Member>, name: Bytes, value: J)
    requires ms != []
    ensures First(ms, name, value)
      <==> if ms[0].key == name then ms[0].value == value else First(ms[1..], name, value)
  {
    if First(ms, name, value) {
      var i :| 0 <= i < |ms| && ms[i] == Member(name, value) && forall k :: 0 <= k < i ==> ms[k].key != name;
      if ms[0].key != name {
        assert ms[1..][i - 1] == ms[i] && forall k :: 0 <= k < i - 1 ==> ms[1..][k] == ms[k + 1];
      }
    }
    if ms[0].key == name && ms[0].value == value {
      assert ms[0] == Member(name, value);
    }
    if ms[0].key != name && First(ms[1..], name, value) {
      var i :| 0 <= i < |ms[1..]| && ms[1..][i] == Member(name, value)
        && forall k :: 0 <= k < i ==> ms[1..][k].key != name;
      assert ms[i + 1] == Member(name, value);
      forall k | 0 <= k < i + 1 ensures ms[k].key != name {
        if k > 0 {
          assert ms[k] == ms[1..][k - 1];
        }
      }
    }
  }

  /** The message that the members of an object carry. */
  ghost predicate Carries(ms: seq<Member>, m: Letter) {
    FirstInt(ms, Lit("clientID"), m.clientID) && FirstInt(ms, Lit("type"), m.kind)
    && FirstInt(ms, Lit("subType"), m.subType)
    && m.content.Some? && m.content.value.Obj? && First(ms, Lit("content"), m.content.value)
  }

  /** fromJSONString reads a message from a text exactly if it is parsed to an object whose first members of
      these names are three numbers and an object; these are what the message holds. */
  lemma ReceivedExactly(text: Bytes, m: Letter)
    ensures Receive(text) == Some(m)
      <==> Parse(text).Some? && Parse(text).value.Obj? && Carries(Parse(text).value.members, m)
  {
    hide Parse, Find, First, DepthOK, Lit, ValueInt;
    if Parse(text).Some? && Parse(text).value.Obj? {
      var ms := Parse(text).value.members;
      LettersAreWords();
      FieldFound(ms, CLIENT_ID, m.clientID);
      FieldFound(ms, TYPE, m.kind);
      FieldFound(ms, SUB_TYPE, m.subType);
      ContentIsCopied(text);
      if m.content.Some? {
        FoundIsFirst(ms, CONTENT, m.content.value);
      }
    }
  }

  lemma FieldFound(ms: seq<Member>, name: Bytes, n: int)
    ensures FirstInt(ms, name, n)
      <==> match Find(ms, name, true)
           case Some(Num(v)) => ValueInt(v) == n
           case _ => false
  {
    hide Find, First, ValueInt;
    forall v: real ensures First(ms, name, Num(v)) <==> Find(ms, name, true) == Some(Num(v)) {
      FoundIsFirst(ms, name, Num(v));
    }
  }

  /** Whatever is found in a parsed tree can be copied. */
  lemma ContentIsCopied(text: Bytes)
    requires Parse(text).Some? && Parse(text).value.Obj?
    ensures var found := Find(Parse(text).value.members, CONTENT, true);
      found.Some? ==> CopyOf(found.value) == found
  {
    hide ParseValue, Start, DepthOK, NestingAtMost, Find, CleanStrings;
    var buffer, ms := text + [NUL], Parse(text).value.members;
    ParsedTrees(buffer, Start(buffer), 0);
    MembersNest(ms, NESTING_LIMIT);
    var found := Find(ms, CONTENT, true);
    if found.Some? {
      var content :| content in ms && content.value == found.value;
      NestingIsCopyable(content.value, NESTING_LIMIT - 1, 0);
    }
  }

  // ---- envelopes with fields missing, as they are sent when memory runs out ----

  /** The envelope with only the chosen fields. */
  function Chosen(m: Letter, id: bool, kind: bool, subType: bool, content: bool): J {
    Obj((if id then [Member(CLIENT_ID, Num(m.clientID as real))] else [])
        + (if kind then [Member(TYPE, Num(m.kind as real))] else [])
        + (if subType then [Member(SUB_TYPE, Num(m.subType as real))] else [])
        + (if content then ContentMember(m.content) else []))
  }

  ghost predicate PartOf(m: Letter, tree: J) {
    exists id, kind, subType, content :: tree == Chosen(m, id, kind, subType, content)
  }

  lemma {:induction false} NotFound(ms: seq<Member>, key: Bytes)
    requires forall m | m in ms :: m.key != key
    ensures Find(ms, key, true) == None
  {
    if ms != [] {
      assert ms[0] in ms && forall m | m in ms[1..] :: m in ms;
      NotFound(ms[1..], key);
    }
  }

  /** Without one of the fields there is no message to be read. */
  lemma OpenChosen(m: Letter, id: bool, kind: bool, subType: bool, content: bool)
    requires !(id && kind && subType && content)
    ensures Open(Chosen(m, id, kind, subType, content)) == None
  {
    hide Find, DepthOK;
    NamesDiffer();
    var ms := Chosen(m, id, kind, subType, content).members;
    NotFound(ms, if !id then CLIENT_ID else if !kind then TYPE else if !subType then SUB_TYPE else CONTENT);
  }

  lemma ChosenIsPrintable(m: Letter, id: bool, kind: bool, subType: bool, content: bool)
    requires Sendable(m)
    ensures Printable(Chosen(m, id, kind, subType, content))
  {
    hide DepthOK;
    EnvelopeIsPrintable(m);
    var ms := Chosen(m, id, kind, subType, content).members;
    assert forall x | x in ms :: x in Envelope(m).members by {
      assert Envelope(m).members[0] == Member(CLIENT_ID, Num(m.clientID as real));
      assert Envelope(m).members[1] == Member(TYPE, Num(m.kind as real));
      assert Envelope(m).members[2] == Member(SUB_TYPE, Num(m.subType as real));
      assert forall i :: 0 <= i < |ContentMember(m.content)| ==>
        Envelope(m).members[3 + i] == ContentMember(m.content)[i];
    }
  }

  /** Whatever fields are missing, the receiver gets the whole message or none. */
  lemma AllOrNothing(m: Letter, tree: J)
    requires Sendable(m) && PartOf(m, tree)
    ensures Receive(Text(tree, false, 0)) == None || Receive(Text(tree, false, 0)) == Some(m)
  {
    hide Text, Parse, DepthOK, NestingAtMost, Printable, Open;
    var id, kind, subType, content :| tree == Chosen(m, id, kind, subType, content);
    if id && kind && subType && content {
      assert tree == Envelope(m);
      WireRoundTrip(m);
    } else {
      ChosenIsPrintable(m, id, kind, subType, content);
      ParseOfPrint(tree, false);
      OpenChosen(m, id, kind, subType, content);
    }
  }
}
