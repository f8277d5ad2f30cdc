/** The printer: cJSON nodes to text in a buffer. */
module Printer {
  import opened Bytes
  import opened Json
  import opened Numbers
  import opened Strings
  import opened Rendering
  import opened Nodes
  import opened PrintBuffers

  /** The tree to be printed and the printer's state do not overlap. */
  ghost predicate Separate(s: set<object>, p: PrintBuffer)
    reads p`buffer
  {
    p !in s && p.hooks !in s && p.buffer !in s
  }

  /** What every printing step promises: on success the text is there with its terminator, and it
      fitted with one byte to spare; on failure it could not, or an allocation failed. */
  twostate predicate Printed(p: PrintBuffer, ok: bool, done: Bytes, text: Bytes)
    reads p, p.buffer, p.hooks
  {
    (ok ==> p.Valid() && p.Shows(done + text) && |done + text| < p.length && p.offset >= old(p.offset)
            && p.depth == old(p.depth) && p.Fits(|done| + |text| + 2))
    && (!ok ==> !p.Fits(|done| + |text| + 2) || (!p.noalloc && p.hooks.failed))
    && Kept(p)
  }

  /** What is kept in any case: a fixed buffer stays, a growing one is replaced by a fresh one, and
      nothing else that was allocated is touched. */
  twostate predicate Kept(p: PrintBuffer)
    reads p, p.hooks
  {
    p.Owns() && p.Others() == old(p.Others()) && (old(p.hooks.failed) ==> p.hooks.failed)
    && (p.buffer == null || p.buffer == old(p.buffer) || fresh(p.buffer))
    && (p.noalloc ==> p.buffer == old(p.buffer) && p.length == old(p.length) && p.hooks.live == old(p.hooks.live))
  }

  /** The literals of print_value. */
  method PrintWord(word: Bytes, p: PrintBuffer, ghost done: Bytes) returns (ok: bool)
    requires p.Valid() && p.Written(done)
    modifies p, p.buffer, p.hooks
    ensures Printed(p, ok, done, word)
  {
    ok := p.Ensure(|word| + 1, done);
    if ok {
      p.CopyString(word, done);
    }
  }

  /** print_number, for numbers whose double is their integer. */
  method PrintNumber(item: Node, p: PrintBuffer, ghost done: Bytes) returns (ok: bool)
    requires item.kind == IsNumber && item.valueint == ValueInt(item.valuedouble) && IsInt32(item.valuedouble)
    requires p.Valid() && p.Written(done)
    modifies p, p.buffer, p.hooks
    ensures Printed(p, ok, done, IntText(ValueInt(old(item.valuedouble))))
  {
    var digits := IntText(item.valueint);
    ok := p.Ensure(|digits| + 1, done);
    if ok {
      p.CopyString(digits, done);
      p.offset := p.offset + |digits|;
    }
  }

  /** The first pass of print_string_ptr: how long the escaped text is, and how much of it escaping adds. */
  method EscapedLength(input: array<byte>) returns (outputLength: nat, escapeCharacters: nat)
    requires IsText(input)
    ensures outputLength == |Escape(TextOf(input))| && escapeCharacters == outputLength - |TextOf(input)|
  {
    hide CString, Escape, EscapeByte;
    ghost var text := TextOf(input);
    CStringBytes(input[..]);
    EscapeOfNone();
    var i := 0;
    escapeCharacters := 0;
    assert text[..0] == [];
    while input[i] != NUL
      invariant 0 <= i <= |text|
      invariant i + escapeCharacters == |Escape(text[..i])|
      decreases |text| - i
    {
      var c := input[i];
      EscapeAppend(text[..i], c);
      assert text[..i + 1] == text[..i] + [c];
      EscapeGrowth(c);
      if c == QUOTE || c == BACKSLASH || c == 8 || c == 12 || c == NEWLINE || c == CR || c == TAB {
        escapeCharacters := escapeCharacters + 1;
      } else if c < 32 {
        escapeCharacters := escapeCharacters + 5;
      }
      i := i + 1;
    }
    assert text[..i] == text;
    outputLength := i + escapeCharacters;
  }

  lemma EscapeOfNone()
    ensures Escape([]) == []
  {
  }

  lemma EscapeGrowth(c: byte)
    ensures |EscapeByte(c)| ==
      if c == QUOTE || c == BACKSLASH || c == 8 || c == 12 || c == NEWLINE || c == CR || c == TAB then 2
      else if c < 32 then 6
      else 1
  {
  }

  /** One character of the second pass. The terminator that sprintf leaves is overwritten later. */
  method PutEscaped(c: byte, at: nat, p: PrintBuffer, ghost done: Bytes) returns (next: nat)
    requires p.Holds(done) && at == |done| && at + |EscapeByte(c)| < p.buffer.Length
    modifies p.buffer
    ensures next == at + |EscapeByte(c)| && p.Holds(done + EscapeByte(c))
  {
    if c > 31 && c != QUOTE && c != BACKSLASH {
      next := p.Put(at, c, done);
    } else {
      next := p.Put(at, BACKSLASH, done);
      ghost var begun := done + [BACKSLASH];
      var letter: byte := LETTER_U;
      match c {
        case 92 => letter := BACKSLASH;
        case 34 => letter := QUOTE;
        case 8 => letter := 98;
        case 12 => letter := 102;
        case 10 => letter := 110;
        case 13 => letter := 114;
        case 9 => letter := 116;
        case _ =>
          var digits := [LETTER_U, 48, 48, LowerHex(c / 16), LowerHex(c % 16)];
          next := p.PutAll(next, digits, begun);
          var _ := p.Put(next, NUL, begun + digits);
          assert begun + digits == done + EscapeByte(c);
          return;
      }
      next := p.Put(next, letter, begun);
      assert begun + [letter] == done + EscapeByte(c);
    }
  }

  /** The second pass: the escaped text at `at`. */
  method PutEscapes(input: array<byte>, at: nat, p: PrintBuffer, ghost done: Bytes) returns (next: nat)
    requires IsText(input) && p.Holds(done) && input != p.buffer
    requires at == |done| && at + |Escape(TextOf(input))| < p.buffer.Length
    modifies p.buffer
    ensures next == at + |Escape(old(TextOf(input)))| && p.Holds(done + Escape(old(TextOf(input))))
  {
    hide CString, Escape, EscapeByte, PrintBuffer.Holds;
    ghost var text := TextOf(input);
    CStringBytes(input[..]);
    EscapeOfNone();
    var i := 0;
    next := at;
    assert text[..0] == [] && done + [] == done;
    while input[i] != NUL
      invariant 0 <= i <= |text|
      invariant next == |done + Escape(text[..i])| && p.Holds(done + Escape(text[..i]))
      decreases |text| - i
    {
      EscapeNext(text, i, done);
      next := PutEscaped(input[i], next, p, done + Escape(text[..i]));
      i := i + 1;
    }
    assert text[..i] == text;
  }

  lemma EscapeNext(s: Bytes, i: nat, done: Bytes)
    requires i < |s|
    ensures done + Escape(s[..i]) + EscapeByte(s[i]) == done + Escape(s[..i + 1])
    ensures |Escape(s[..i])| + |EscapeByte(s[i])| <= |Escape(s)|
  {
    hide Escape, EscapeByte;
    EscapeAppend(s[..i], s[i]);
    assert s[..i + 1] == s[..i] + [s[i]];
    EscapeGrows(s, i + 1);
  }

  lemma {:induction false} EscapeGrows(s: Bytes, k: nat)
    requires k <= |s|
    ensures |Escape(s[..k])| <= |Escape(s)|
  {
    if k > 0 {
      EscapeGrows(s[1..], k - 1);
      assert s[..k][1..] == s[1..][..k - 1];
    }
  }

  /** print_string_ptr. */
  method PrintStringPtr(input: array?<byte>, p: PrintBuffer, ghost done: Bytes) returns (ok: bool)
    requires input != null ==> IsText(input) && input != p.buffer
    requires p.Valid() && p.Written(done)
    modifies p, p.buffer, p.hooks
    ensures Printed(p, ok, done, Quoted(if input == null then [] else old(TextOf(input))))
  {
    if input == null {
      assert Quoted([]) == [QUOTE, QUOTE];
      ok := p.Ensure(3, done);
      if ok {
        p.CopyString([QUOTE, QUOTE], done);
      }
      return;
    }
    var outputLength, escapeCharacters := EscapedLength(input);
    ok := p.Ensure(outputLength + 3, done);
    if ok {
      WriteLiteral(input, outputLength, escapeCharacters, p, done);
    }
  }

  /** The rest of print_string_ptr, with room made: the quotes and what is between them. */
  method WriteLiteral(input: array<byte>, outputLength: nat, escapeCharacters: nat, p: PrintBuffer, ghost done: Bytes)
    requires IsText(input) && p.Written(done) && input != p.buffer
    requires outputLength == |Escape(TextOf(input))| && escapeCharacters == outputLength - |TextOf(input)|
    requires p.offset + outputLength + 3 <= p.buffer.Length
    modifies p.buffer
    ensures p.Shows(done + Quoted(old(TextOf(input))))
  {
    hide Escape, Quoted, CString, PrintBuffer.Holds;
    ghost var text := TextOf(input);
    ghost var begun := done + [QUOTE];
    ghost var body := begun + Escape(text);
    CStringBytes(input[..]);
    assert input[..|text|] == text;
    LiteralText(done, text);
    var at := p.Put(p.offset, QUOTE, done);
    if escapeCharacters == 0 {
      NothingEscaped(text);
      at := p.PutAll(at, input[..outputLength], begun);
    } else {
      at := PutEscapes(input, at, p, begun);
    }
    assert at == p.offset + outputLength + 1;
    at := p.Put(p.offset + outputLength + 1, QUOTE, body);
    at := p.Put(p.offset + outputLength + 2, NUL, body + [QUOTE]);
  }

  lemma LiteralText(done: Bytes, text: Bytes)
    ensures done + [QUOTE] + Escape(text) + [QUOTE] == done + Quoted(text)
    ensures |Quoted(text)| == |Escape(text)| + 2
  {
    hide Escape;
  }

  // ---- containers ----

  /** A tree that can be printed. */
  ghost predicate Source(item: Node)
    reads item, item.owned
  {
    item.Valid() && Printable(item.tree)
  }

  /** What a step inside a container promises; `size` is what the whole
      container needs, `depth` how deep the printer is afterwards. */
  twostate predicate Advanced(p: PrintBuffer, ok: bool, done: Bytes, size: nat, depth: nat)
    reads p, p.buffer, p.hooks
  {
    (ok ==> p.Valid() && p.Written(done) && p.depth == depth)
    && (!ok ==> !p.Fits(size) || (!p.noalloc && p.hooks.failed))
    && Kept(p)
  }

  lemma ChildSource(item: Node, p: PrintBuffer, k: nat)
    requires Source(item) && Separate(item.Share(), p) && k < |item.children|
    ensures Source(item.children[k]) && item.children[k].owned < item.owned && Separate(item.children[k].Share(), p)
    ensures item.children[k].next == if k + 1 < |item.children| then item.children[k + 1] else null
    ensures item.kind == IsArray || item.kind == IsObject
    ensures item.kind == IsArray ==> IsElement(item.tree, k, |item.children|, item.children[k].tree)
    ensures item.kind == IsObject ==> HasKey(item.children[k]) && item.children[k].key != p.buffer
    ensures item.kind == IsObject ==>
      IsMember(item.tree, k, |item.children|, TextOf(item.children[k].key), item.children[k].tree)
  {
    hide Node.Valid;
    ChildParts(item, k);
    if item.kind == IsArray {
      assert item.tree.elements[k] in item.tree.elements;
    } else {
      assert item.tree.members[k] in item.tree.members;
    }
  }

  lemma FirstChild(item: Node)
    requires Source(item)
    ensures item.child == if item.children == [] then null else item.children[0]
  {
    ValidParts(item);
    ForestAt(item.child, item.children, 0);
  }

  /** The elements from `k` on: one, its separator, and the rest. */
  lemma ElementsFrom(xs: seq<J>, k: nat, format: bool, d: nat)
    requires k < |xs|
    ensures Elements(xs[k..], format, d)
      == Text(xs[k], format, d) + (if k + 1 < |xs| then Separator(format) + Elements(xs[k + 1..], format, d) else [])
    ensures k + 1 < |xs| ==> |Elements(xs[k + 1..], format, d)| > 0
    ensures k + 1 == |xs| ==> Elements(xs[k + 1..], format, d) == []
  {
    hide Text, Separator;
    assert xs[k..][1..] == xs[k + 1..];
    if k + 1 < |xs| {
      assert xs[k + 1..][0] == xs[k + 1];
      Assoc(Text(xs[k], format, d), Separator(format), Elements(xs[k + 1..], format, d));
    } else {
      assert Text(xs[k], format, d) + [] == Text(xs[k], format, d);
    }
  }

  /** The comma between elements. */
  method PrintSeparator(p: PrintBuffer, ghost done: Bytes, ghost size: nat) returns (ok: bool)
    requires p.Valid() && p.Written(done) && |done| + |Separator(p.format)| + 2 <= size
    modifies p, p.buffer, p.hooks
    ensures Advanced(p, ok, done + Separator(p.format), size, old(p.depth))
  {
    var length := if p.format then 2 else 1;
    ok := p.Ensure(length + 1, done);
    if ok {
      var o := p.Put(p.offset, COMMA, done);
      ghost var begun := done + [COMMA];
      if p.format {
        o := p.Put(o, SPACE, begun);
        begun := begun + [SPACE];
      }
      assert begun == done + Separator(p.format);
      o := p.Put(o, NUL, begun);
      p.offset := p.offset + length;
    }
  }

  /** Finding the end of a value that was printed after `done`. */
  method FindEnd(p: PrintBuffer, ghost done: Bytes, ghost text: Bytes)
    requires p.Valid() && p.Shows(done + text) && |done + text| < p.length && p.offset >= |done| && NulFree(text)
    modifies p`offset
    ensures p.Valid() && p.Written(done + text)
  {
    assert (done + text)[p.offset..] == text[p.offset - |done|..];
    p.UpdateOffset(done + text);
  }

  /** print_value. */
  method PrintValue(item: Node, p: PrintBuffer, ghost done: Bytes) returns (ok: bool)
    requires Source(item) && Separate(item.Share(), p) && p.Valid() && p.Written(done)
    modifies p, p.buffer, p.hooks
    ensures Printed(p, ok, done, Text(old(item.tree), p.format, old(p.depth)))
    decreases item.owned, 4
  {
    hide Node.Valid, Elements, Rendering.Members, Quoted, IntText, Nodes.Members, Trees;
    ValidTree(item);
    match item.kind
    case IsNull => ok := PrintWord(NULL_WORD, p, done);
    case IsFalse => ok := PrintWord(FALSE_WORD, p, done);
    case IsTrue => ok := PrintWord(TRUE_WORD, p, done);
    case IsNumber => ok := PrintNumber(item, p, done);
    case IsString => ok := PrintStringPtr(item.valuestring, p, done);
    case IsArray => ok := PrintArray(item, p, done);
    case IsObject => ok := PrintObject(item, p, done);
    case Invalid => assert false;
  }

  /** A turn of the loop of print_array. */
  method PrintElement(current: Node, ghost parent: Node, p: PrintBuffer, ghost done: Bytes, ghost size: nat)
    returns (ok: bool)
    requires Source(current) && Separate(current.Share(), p) && p.Valid() && p.Written(done)
    requires Source(parent) && Separate(parent.Share(), p)
    requires |done + ElementText(current, p)| + 2 <= size
    modifies p, p.buffer, p.hooks
    ensures Advanced(p, ok, done + old(ElementText(current, p)), size, old(p.depth))
    ensures Source(parent) && Separate(parent.Share(), p)
    decreases current.owned, 5
  {
    hide Node.Valid, Text, PrintBuffer.Holds, Source;
    ghost var text := Text(current.tree, p.format, p.depth);
    ghost var whole := ElementText(current, p);
    TextIsNulFree(current.tree, p.format, p.depth);
    ok := PrintValue(current, p, done);
    assert Separate(parent.Share(), p);
    if ok {
      FindEnd(p, done, text);
      if current.next != null {
        Assoc(done, text, Separator(p.format));
        ok := PrintSeparator(p, done + text, size);
        assert Separate(parent.Share(), p);
      } else {
        assert text + [] == text;
      }
    }
  }

  ghost function ElementText(current: Node, p: PrintBuffer): Bytes
    reads current, p
  {
    Text(current.tree, p.format, p.depth) + (if current.next != null then Separator(p.format) else [])
  }

  /** The loop of print_array, on an array whose opening bracket has been printed. */
  method PrintElements(item: Node, p: PrintBuffer, ghost start: Bytes, ghost size: nat) returns (ok: bool)
    requires item.kind == IsArray && Source(item) && Separate(item.Share(), p) && p.Valid() && p.Written(start)
    requires item.tree.Arr? && |start + Elements(item.tree.elements, p.format, p.depth)| + 2 < size
    modifies p, p.buffer, p.hooks
    ensures Advanced(p, ok, start + Elements(old(item.tree).elements, p.format, old(p.depth)), size, old(p.depth))
    decreases item.owned, 0
  {
    hide Source, Elements, Text, PrintBuffer.Holds, ElementText;
    ArrayTree(item);
    FirstChild(item);
    ghost var xs, d := item.tree.elements, p.depth;
    ghost var all := start + Elements(xs, p.format, d);
    ghost var now := start;
    ghost var k := 0;
    var current := item.child;
    assert xs[0..] == xs;
    ok := true;
    while current != null
      invariant 0 <= k <= |xs| == |item.children|
      invariant current == if k < |xs| then item.children[k] else null
      invariant Source(item) && Separate(item.Share(), p) && item.tree == Arr(xs)
      invariant Advanced(p, true, now, size, d)
      invariant now + Elements(xs[k..], p.format, d) == all
      decreases |xs| - k
    {
      ChildSource(item, p, k);
      ElementsStep(xs, k, p.format, d, now, current, p);
      ghost var piece := ElementText(current, p);
      ok := PrintElement(current, item, p, now, size);
      if !ok {
        return;
      }
      now := now + piece;
      current := current.next;
      k := k + 1;
    }
    NoElements(p.format, d);
    assert xs[k..] == [] && now + [] == now;
  }

  lemma ElementsStep(xs: seq<J>, k: nat, format: bool, d: nat, now: Bytes, current: Node, p: PrintBuffer)
    requires k < |xs| && current.tree == xs[k] && p.format == format && p.depth == d
    requires current.next != null <==> k + 1 < |xs|
    ensures now + ElementText(current, p) + Elements(xs[k + 1..], format, d) == now + Elements(xs[k..], format, d)
    ensures |now + ElementText(current, p)| <= |now + Elements(xs[k..], format, d)|
  {
    hide Text, Separator, Elements;
    ElementsFrom(xs, k, format, d);
    var t, s, rest := Text(xs[k], format, d), Separator(format), Elements(xs[k + 1..], format, d);
    if k + 1 < |xs| {
      assert now + (t + s) + rest == now + (t + (s + rest));
    } else {
      assert t + [] == t && now + t + [] == now + t;
    }
  }

  lemma ArrayText(xs: seq<J>, format: bool, d: nat, done: Bytes)
    ensures done + [LBRACKET] + Elements(xs, format, d + 1) + [RBRACKET] == done + Text(Arr(xs), format, d)
  {
    hide Elements;
    Assoc(done, [LBRACKET], Elements(xs, format, d + 1));
    Assoc(done, [LBRACKET] + Elements(xs, format, d + 1), [RBRACKET]);
  }

  /** print_array. */
  method PrintArray(item: Node, p: PrintBuffer, ghost done: Bytes) returns (ok: bool)
    requires item.kind == IsArray && Source(item) && Separate(item.Share(), p) && p.Valid() && p.Written(done)
    modifies p, p.buffer, p.hooks
    ensures Printed(p, ok, done, Text(old(item.tree), p.format, old(p.depth)))
    decreases item.owned, 1
  {
    hide Source, Text, Elements, PrintBuffer.Holds, PrintBuffer.Shows;
    ArrayTree(item);
    ghost var xs, d := item.tree.elements, p.depth;
    ghost var body := Elements(xs, p.format, d + 1);
    ghost var begun := done + [LBRACKET];
    ghost var full := begun + body;
    ghost var size := |done + Text(item.tree, p.format, d)| + 2;
    ArrayText(xs, p.format, d, done);
    assert |full| + 3 <= size;
    ok := OpenArray(p, done, size);
    if ok {
      ok := PrintElements(item, p, begun, size);
      if ok {
        ok := CloseArray(p, full);
      }
    }
  }

  method OpenArray(p: PrintBuffer, ghost done: Bytes, ghost size: nat) returns (ok: bool)
    requires p.Valid() && p.Written(done) && |done| + 2 <= size
    modifies p, p.buffer, p.hooks
    ensures Advanced(p, ok, done + [LBRACKET], size, old(p.depth) + 1)
  {
    ok := p.Ensure(1, done);
    if ok {
      var o := p.Put(p.offset, LBRACKET, done);
      p.offset := p.offset + 1;
      p.depth := p.depth + 1;
    }
  }

  method CloseArray(p: PrintBuffer, ghost done: Bytes) returns (ok: bool)
    requires p.Valid() && p.Written(done) && p.depth > 0
    modifies p, p.buffer, p.hooks
    ensures Ended(p, ok, done + [RBRACKET])
  {
    ok := p.Ensure(2, done);
    if ok {
      var o := p.Put(p.offset, RBRACKET, done);
      o := p.Put(o, NUL, done + [RBRACKET]);
      p.depth := p.depth - 1;
    }
  }

  /** What closing a container promises: the text is there and the depth is one less. */
  twostate predicate Ended(p: PrintBuffer, ok: bool, whole: Bytes)
    reads p, p.buffer, p.hooks
  {
    (ok ==> p.Valid() && p.Shows(whole) && |whole| < p.length && p.offset >= old(p.offset)
            && p.depth == old(p.depth) - 1 && p.Fits(|whole| + 2))
    && (!ok ==> !p.Fits(|whole| + 2) || (!p.noalloc && p.hooks.failed))
    && Kept(p)
  }

  lemma ArrayTree(item: Node)
    requires item.kind == IsArray && Source(item)
    ensures item.tree.Arr? && |item.tree.elements| == |item.children|
  {
    ValidTree(item);
  }

  // ---- objects ----

  lemma ObjectTree(item: Node)
    requires item.kind == IsObject && Source(item)
    ensures item.tree.Obj? && |item.tree.members| == |item.children|
  {
    ValidTree(item);
  }

  method OpenObject(p: PrintBuffer, ghost done: Bytes, ghost size: nat) returns (ok: bool)
    requires p.Valid() && p.Written(done) && |done + Opening(p.format)| + 2 <= size
    modifies p, p.buffer, p.hooks
    ensures Advanced(p, ok, done + Opening(p.format), size, old(p.depth) + 1)
  {
    var length := if p.format then 2 else 1;
    ok := p.Ensure(length + 1, done);
    if ok {
      var o := p.Put(p.offset, LBRACE, done);
      p.depth := p.depth + 1;
      if p.format {
        o := p.Put(o, NEWLINE, done + [LBRACE]);
        assert done + [LBRACE] + [NEWLINE] == done + Opening(true);
      }
      p.offset := p.offset + length;
    }
  }

  /** The indentation before a key. */
  method PrintTabs(p: PrintBuffer, ghost done: Bytes, ghost size: nat) returns (ok: bool)
    requires p.Valid() && p.Written(done) && |done + Tabs(p.depth)| + 1 <= size
    modifies p, p.buffer, p.hooks
    ensures Advanced(p, ok, done + Tabs(old(p.depth)), size, old(p.depth))
  {
    ok := p.Ensure(p.depth, done);
    if ok {
      var o := PutTabs(p.offset, p.depth, p, done);
      p.offset := p.offset + p.depth;
    }
  }

  method PutTabs(at: nat, count: nat, p: PrintBuffer, ghost done: Bytes) returns (next: nat)
    requires p.Holds(done) && at == |done| && at + count <= p.buffer.Length
    modifies p.buffer
    ensures next == at + count && p.Holds(done + Tabs(count))
  {
    hide PrintBuffer.Holds;
    next := at;
    assert done + Tabs(0) == done;
    for i := 0 to count
      invariant next == at + i && p.Holds(done + Tabs(i))
    {
      assert done + Tabs(i) + [TAB] == done + Tabs(i + 1);
      next := p.Put(next, TAB, done + Tabs(i));
    }
  }

  /** The colon after a key. */
  method PrintColon(p: PrintBuffer, ghost done: Bytes, ghost size: nat) returns (ok: bool)
    requires p.Valid() && p.Written(done) && |done + Colon(p.format)| + 1 <= size
    modifies p, p.buffer, p.hooks
    ensures Advanced(p, ok, done + Colon(p.format), size, old(p.depth))
  {
    var length := if p.format then 2 else 1;
    ok := p.Ensure(length, done);
    if ok {
      var o := p.Put(p.offset, COLON, done);
      if p.format {
        o := p.Put(o, TAB, done + [COLON]);
        assert done + [COLON] + [TAB] == done + Colon(true);
      }
      p.offset := p.offset + length;
    }
  }

  /** Comma and newline after a member. */
  method PrintMemberEnd(last: bool, p: PrintBuffer, ghost done: Bytes, ghost size: nat) returns (ok: bool)
    requires p.Valid() && p.Written(done) && |done + MemberEnd(p.format, last)| + 2 <= size
    modifies p, p.buffer, p.hooks
    ensures Advanced(p, ok, done + MemberEnd(p.format, last), size, old(p.depth))
  {
    var length := (if p.format then 1 else 0) + (if last then 0 else 1);
    ok := p.Ensure(length + 1, done);
    if ok {
      var o := p.offset;
      ghost var now := done;
      if !last {
        o := p.Put(o, COMMA, now);
        now := now + [COMMA];
      }
      if p.format {
        o := p.Put(o, NEWLINE, now);
        now := now + [NEWLINE];
      }
      assert now == done + MemberEnd(p.format, last);
      o := p.Put(o, NUL, now);
      p.offset := p.offset + length;
    }
  }

  method CloseObject(p: PrintBuffer, ghost done: Bytes, ghost whole: Bytes) returns (ok: bool)
    requires p.Valid() && p.Written(done) && p.depth > 0 && whole == done + Closing(p.format, p.depth - 1)
    modifies p, p.buffer, p.hooks
    ensures Ended(p, ok, whole)
  {
    hide Tabs;
    ok := p.Ensure(if p.format then p.depth + 1 else 2, done);
    if ok {
      var o := p.offset;
      ghost var now := done;
      if p.format {
        o := PutTabs(o, p.depth - 1, p, now);
        now := now + Tabs(p.depth - 1);
      }
      o := p.Put(o, RBRACE, now);
      assert now + [RBRACE] == whole;
      o := p.Put(o, NUL, now + [RBRACE]);
      p.depth := p.depth - 1;
    }
  }

  /** The text of one member, as the loop of print_object prints it. */
  ghost function MemberPiece(current: Node, p: PrintBuffer): Bytes
    requires HasKey(current)
    reads current, current.owned, p
  {
    MemberText(Member(TextOf(current.key), current.tree), p.format, p.depth, current.next == null)
  }

  /** The positions inside one member's text. */
  lemma MemberParts(m: Member, format: bool, d: nat, last: bool, done: Bytes)
    ensures var a := done + Indent(format, d);
      var b := a + Quoted(m.key);
      var c := b + Colon(format);
      var v := c + Text(m.value, format, d);
      v + MemberEnd(format, last) == done + MemberText(m, format, d, last)
  {
    hide Text, Quoted, Indent, Colon, MemberEnd;
    var a, b, c, v, e := Indent(format, d), Quoted(m.key), Colon(format), Text(m.value, format, d),
      MemberEnd(format, last);
    Assoc(done, a, b);
    Assoc(done, a + b, c);
    Assoc(done, a + b + c, v);
    Assoc(done, a + b + c + v, e);
  }

  /** Indentation, key and colon of a member. */
  method PrintKey(current: Node, ghost parent: Node, p: PrintBuffer, ghost done: Bytes, ghost size: nat)
    returns (ok: bool)
    requires current.key != null && current.key in current.owned && IsText(current.key)
    requires Source(current) && Separate(current.Share(), p) && p.Valid() && p.Written(done)
    requires Source(parent) && Separate(parent.Share(), p)
    requires |done + Indent(p.format, p.depth) + Quoted(TextOf(current.key)) + Colon(p.format)| + 2 <= size
    modifies p, p.buffer, p.hooks
    ensures Advanced(p, ok, done + Indent(p.format, old(p.depth)) + Quoted(old(TextOf(current.key))) + Colon(p.format),
                     size, old(p.depth))
    ensures Source(current) && Separate(current.Share(), p)
    ensures Source(parent) && Separate(parent.Share(), p)
  {
    hide PrintBuffer.Holds, PrintBuffer.Shows, Source, Quoted, CString, NulFree, Tabs, IsText;
    ghost var text := TextOf(current.key);
    ghost var now := done + Indent(p.format, p.depth);
    ghost var keyed := now + Quoted(text);
    EscapeIsNulFree(text);
    assert done + [] == done;
    if p.format {
      ok := PrintTabs(p, done, size);
      if !ok {
        return;
      }
    }
    ok := PrintStringPtr(current.key, p, now);
    if !ok {
      return;
    }
    FindEnd(p, now, Quoted(text));
    ok := PrintColon(p, keyed, size);
  }

  /** A turn of the loop of print_object. */
  method PrintMember(current: Node, ghost parent: Node, p: PrintBuffer, ghost done: Bytes, ghost size: nat)
    returns (ok: bool)
    requires HasKey(current)
    requires Source(current) && Separate(current.Share(), p) && p.Valid() && p.Written(done)
    requires Source(parent) && Separate(parent.Share(), p)
    requires |done + MemberPiece(current, p)| + 2 <= size
    modifies p, p.buffer, p.hooks
    ensures Advanced(p, ok, done + old(MemberPiece(current, p)), size, old(p.depth))
    ensures Source(parent) && Separate(parent.Share(), p)
    decreases current.owned, 6
  {
    hide PrintBuffer.Holds, PrintBuffer.Shows, Source, Quoted, CString, NulFree, Tabs, IsText, Text, MemberText,
      Indent, Colon, MemberEnd;
    ghost var m := Member(TextOf(current.key), current.tree);
    ghost var last := current.next == null;
    ghost var keyed := done + Indent(p.format, p.depth) + Quoted(m.key) + Colon(p.format);
    ghost var text := Text(m.value, p.format, p.depth);
    MemberParts(m, p.format, p.depth, last, done);
    TextIsNulFree(m.value, p.format, p.depth);
    ok := PrintKey(current, parent, p, done, size);
    if !ok {
      return;
    }
    ok := PrintMemberValue(current, parent, p, keyed, text, size);
    if !ok {
      return;
    }
    ok := PrintMemberEnd(current.next == null, p, keyed + text, size);
  }

  /** The value of a member, up to where its end was found. */
  method PrintMemberValue(current: Node, ghost parent: Node, p: PrintBuffer, ghost done: Bytes, ghost text: Bytes,
      ghost size: nat)
    returns (ok: bool)
    requires Source(current) && Separate(current.Share(), p) && p.Valid() && p.Written(done)
    requires Source(parent) && Separate(parent.Share(), p)
    requires text == Text(current.tree, p.format, p.depth) && NulFree(text) && |done + text| + 2 <= size
    modifies p, p.buffer, p.hooks
    ensures Advanced(p, ok, done + text, size, old(p.depth))
    ensures Source(parent) && Separate(parent.Share(), p)
    decreases current.owned, 5
  {
    hide PrintBuffer.Holds, Source, Text, NulFree;
    ok := PrintValue(current, p, done);
    if ok {
      FindEnd(p, done, text);
    }
  }

  lemma MembersStep(ms: seq<Member>, k: nat, format: bool, d: nat, now: Bytes, current: Node, p: PrintBuffer)
    requires k < |ms| && p.format == format && p.depth == d
    requires HasKey(current) && ms[k] == Member(TextOf(current.key), current.tree)
    requires current.next != null <==> k + 1 < |ms|
    ensures now + MemberPiece(current, p) + Rendering.Members(ms[k + 1..], format, d)
      == now + Rendering.Members(ms[k..], format, d)
    ensures |now + MemberPiece(current, p)| <= |now + Rendering.Members(ms[k..], format, d)|
  {
    hide MemberText, CString;
    assert ms[k..][1..] == ms[k + 1..];
    Assoc(now, MemberPiece(current, p), Rendering.Members(ms[k + 1..], format, d));
  }

  /** Before the `k`-th member: what is written and the rest make up the whole member list. */
  ghost predicate AtMember(all: Bytes, now: Bytes, ms: seq<Member>, k: nat, format: bool, d: nat) {
    k <= |ms| && all == now + Rendering.Members(ms[k..], format, d)
  }

  lemma AtFirstMember(ms: seq<Member>, format: bool, d: nat, start: Bytes)
    ensures AtMember(start + Rendering.Members(ms, format, d), start, ms, 0, format, d)
  {
    assert ms[0..] == ms;
  }

  lemma AfterLastMember(all: Bytes, now: Bytes, ms: seq<Member>, format: bool, d: nat)
    requires AtMember(all, now, ms, |ms|, format, d)
    ensures now == all
  {
    assert ms[|ms|..] == [];
    NoElements(format, d);
  }

  /** A turn of the loop of print_object, as seen from the object. */
  method MemberTurn(item: Node, current: Node, ghost k: nat, p: PrintBuffer, ghost now: Bytes, ghost all: Bytes,
      ghost size: nat)
    returns (ok: bool, ghost next: Bytes)
    requires item.kind == IsObject && Source(item) && Separate(item.Share(), p) && p.Valid() && p.Written(now)
    requires k < |item.children| && current == item.children[k] && item.tree.Obj?
    requires AtMember(all, now, item.tree.members, k, p.format, p.depth) && |all| + 2 <= size
    modifies p, p.buffer, p.hooks
    ensures Advanced(p, ok, next, size, old(p.depth))
    ensures AtMember(all, next, item.tree.members, k + 1, p.format, old(p.depth))
    ensures Source(item) && Separate(item.Share(), p)
    decreases item.owned, 0
  {
    hide Source, Rendering.Members, MemberPiece, HasKey, TextOf, PrintBuffer.Holds, NulFree;
    ObjectTree(item);
    ChildSource(item, p, k);
    MembersStep(item.tree.members, k, p.format, p.depth, now, current, p);
    next := now + MemberPiece(current, p);
    ok := PrintMember(current, item, p, now, size);
  }

  /** The loop of print_object, on an object whose opening brace has been printed. */
  method PrintMembers(item: Node, p: PrintBuffer, ghost start: Bytes, ghost size: nat) returns (ok: bool)
    requires item.kind == IsObject && Source(item) && Separate(item.Share(), p) && p.Valid() && p.Written(start)
    requires item.tree.Obj? && |start + Rendering.Members(item.tree.members, p.format, p.depth)| + 2 < size
    modifies p, p.buffer, p.hooks
    ensures Advanced(p, ok, start + Rendering.Members(old(item.tree).members, p.format, old(p.depth)), size,
        old(p.depth))
    decreases item.owned, 1
  {
    hide Source, Rendering.Members, AtMember, PrintBuffer.Holds;
    ObjectTree(item);
    FirstChild(item);
    ghost var ms, d := item.tree.members, p.depth;
    ghost var all := start + Rendering.Members(ms, p.format, d);
    AtFirstMember(ms, p.format, d, start);
    ghost var now := start;
    ghost var k := 0;
    var current := item.child;
    ok := true;
    while current != null
      invariant 0 <= k <= |ms| == |item.children|
      invariant current == if k < |ms| then item.children[k] else null
      invariant Source(item) && Separate(item.Share(), p) && item.tree == Obj(ms)
      invariant Advanced(p, true, now, size, d) && AtMember(all, now, ms, k, p.format, d)
      decreases |ms| - k
    {
      NextChild(item, k);
      ok, now := MemberTurn(item, current, k, p, now, all, size);
      if !ok {
        return;
      }
      current := current.next;
      k := k + 1;
    }
    AfterLastMember(all, now, ms, p.format, d);
  }

  lemma NextChild(item: Node, k: nat)
    requires Source(item) && k < |item.children|
    ensures item.children[k].next == if k + 1 < |item.children| then item.children[k + 1] else null
  {
    ChildParts(item, k);
  }

  lemma ObjectText(ms: seq<Member>, format: bool, d: nat, done: Bytes)
    ensures |done + Opening(format)| <= |done + Text(Obj(ms), format, d)|
    ensures done + Opening(format) + Rendering.Members(ms, format, d + 1) + Closing(format, d)
      == done + Text(Obj(ms), format, d)
    ensures |Closing(format, d)| > 0
  {
    hide Rendering.Members, Opening;
    Assoc(done, Opening(format), Rendering.Members(ms, format, d + 1));
    Assoc(done, Opening(format) + Rendering.Members(ms, format, d + 1), Closing(format, d));
  }

  /** print_object. */
  method PrintObject(item: Node, p: PrintBuffer, ghost done: Bytes) returns (ok: bool)
    requires item.kind == IsObject && Source(item) && Separate(item.Share(), p) && p.Valid() && p.Written(done)
    modifies p, p.buffer, p.hooks
    ensures Printed(p, ok, done, Text(old(item.tree), p.format, old(p.depth)))
    decreases item.owned, 3
  {
    hide Source, Text, Rendering.Members, PrintBuffer.Holds, PrintBuffer.Shows, Opening, Closing;
    ObjectTree(item);
    ghost var whole := done + Text(item.tree, p.format, p.depth);
    ObjectText(item.tree.members, p.format, p.depth, done);
    ok := OpenObject(p, done, |whole| + 2);
    if ok {
      ok := PrintBody(item, p, done + Opening(p.format), whole);
    }
  }

  lemma ClosingIsShort(format: bool, d: nat)
    ensures |Closing(format, d)| > 0
  {
  }

  /** print_object after its opening brace. */
  method PrintBody(item: Node, p: PrintBuffer, ghost begun: Bytes, ghost whole: Bytes) returns (ok: bool)
    requires item.kind == IsObject && Source(item) && Separate(item.Share(), p) && p.Valid() && p.Written(begun)
    requires item.tree.Obj? && p.depth > 0
    requires whole == begun + Rendering.Members(item.tree.members, p.format, p.depth) + Closing(p.format, p.depth - 1)
    modifies p, p.buffer, p.hooks
    ensures Ended(p, ok, whole)
    decreases item.owned, 2
  {
    hide Source, Rendering.Members, PrintBuffer.Holds, PrintBuffer.Shows, Closing;
    ghost var full := begun + Rendering.Members(item.tree.members, p.format, p.depth);
    ClosingIsShort(p.format, p.depth - 1);
    ok := PrintMembers(item, p, begun, |whole| + 2);
    if ok {
      ok := CloseObject(p, full, whole);
    }
  }

  // ---- entry points ----

  /** cJSON_PrintPreallocated: into a buffer of the caller's, exactly when text, terminator and one
      more byte fit. */
  method PrintPreallocated(item: Node?, buffer: array?<byte>, length: int, format: bool) returns (ok: bool)
    requires length <= INT_MAX && (buffer != null ==> length <= buffer.Length)
    requires item != null ==> Source(item) && buffer !in item.Share()
    modifies buffer
    ensures ok <==> item != null && buffer != null && length >= |Text(old(item.tree), format, 0)| + 2
    ensures ok ==> IsText(buffer) && TextOf(buffer) == Text(old(item.tree), format, 0)
  {
    hide Source, Text, NulFree;
    if length < 0 || buffer == null {
      return false;
    }
    if item == null {
      return false;
    }
    var hooks := new Allocator();
    var p := new PrintBuffer(buffer, length, true, format, false, hooks);
    ghost var text := Text(item.tree, format, 0);
    TextIsNulFree(item.tree, format, 0);
    ok := PrintValue(item, p, []);
    assert [] + text == text;
    if ok {
      assert p.buffer[..|text|] == text;
      CStringAt(buffer[..], |text|);
    }
  }

  const DEFAULT_BUFFER_SIZE: nat := 256

  /** print, behind cJSON_Print and cJSON_PrintUnformatted: a fresh C string of its exact length. It
      fails only for a text too long for an int or for want of memory, and then leaves nothing. */
  method Print(item: Node?, format: bool, reallocates: bool, hooks: Allocator) returns (printed: array?<byte>)
    requires item != null ==> Source(item) && hooks !in item.Share()
    modifies hooks
    ensures printed != null ==>
      item != null && fresh(printed) && hooks.live == old(hooks.live) + {printed}
      && |Text(item.tree, format, 0)| + 2 <= INT_MAX
      && printed[..] == Text(item.tree, format, 0) + [NUL]
    ensures printed == null ==>
      hooks.live == old(hooks.live)
      && (item == null || |Text(item.tree, format, 0)| + 2 > INT_MAX || hooks.failed)
    ensures old(hooks.failed) ==> hooks.failed
    ensures item != null ==> Source(item)
  {
    hide Source, Text, NulFree;
    var buffer := hooks.NewBytes(DEFAULT_BUFFER_SIZE);
    if buffer == null {
      return null;
    }
    var p := new PrintBuffer(buffer, DEFAULT_BUFFER_SIZE, false, format, reallocates, hooks);
    var ok := false;
    if item != null {
      ghost var text := Text(item.tree, format, 0);
      TextIsNulFree(item.tree, format, 0);
      assert [] + text == text;
      ok := PrintValue(item, p, []);
      if ok {
        FindEnd(p, [], text);
        printed := Shrink(p, text);
        return;
      }
    }
    if p.buffer != null {
      hooks.Free(p.buffer);
    }
    printed := null;
  }

  /** The end of print: the text and its terminator in an allocation of just that length. */
  method Shrink(p: PrintBuffer, ghost text: Bytes) returns (printed: array?<byte>)
    requires p.Valid() && !p.noalloc && p.Written(text) && p.Shows(text)
    modifies p.hooks
    ensures printed != null ==>
      fresh(printed) && p.hooks.live == old(p.hooks.live) - {p.buffer} + {printed} && printed[..] == text + [NUL]
    ensures printed == null ==> p.hooks.live == old(p.hooks.live) - {p.buffer} && p.hooks.failed
    ensures old(p.hooks.failed) ==> p.hooks.failed
  {
    printed := p.hooks.NewBytes(p.offset + 1);
    if printed != null {
      var copied := if p.reallocates then p.offset + 1 else Min(p.length, p.offset + 1);
      forall i | 0 <= i < copied {
        printed[i] := p.buffer[i];
      }
      if !p.reallocates {
        printed[p.offset] := NUL;
      }
      assert printed[..p.offset] == p.buffer[..p.offset];
    }
    p.hooks.Free(p.buffer);
  }
}
