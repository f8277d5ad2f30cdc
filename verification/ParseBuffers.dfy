/** The parser's buffer, and the leaves of the grammar: whitespace, strings and numbers. */
module ParseBuffers {
  import opened Bytes
  import opened Json
  import opened Numbers
  import opened Utf16
  import opened Strings
  import opened Grammar
  import opened Nodes
  import opened Chains

  class ParseBuffer {
    const content: Bytes
    const hooks: Allocator
    var offset: nat
    /** How many containers are open. */
    var depth: nat

    constructor (content: Bytes, hooks: Allocator)
      ensures this.content == content && this.hooks == hooks && offset == 0 && depth == 0
    {
      this.content, this.hooks := content, hooks;
      offset, depth := 0, 0;
    }

    /** Reading never starts past the end. */
    ghost predicate Valid()
      reads this`offset
    {
      offset <= |content|
    }

    /** The byte `index` after the offset exists. */
    predicate CanAccess(index: nat)
      reads this`offset
    {
      offset + index < |content|
    }

    /** The byte at the offset exists and is `c`. */
    predicate IsAt(c: byte)
      reads this`offset
    {
      CanAccess(0) && content[offset] == c
    }

    /** buffer_skip_whitespace. */
    method SkipWhitespace()
      requires Valid()
      modifies this`offset
      ensures offset == SkipWs(content, old(offset)) && Valid()
    {
      if !CanAccess(0) {
        return;
      }
      while CanAccess(0) && content[offset] <= 32
        invariant old(offset) <= offset <= |content| && WsEnd(content, offset) == WsEnd(content, old(offset))
        decreases |content| - offset
      {
        offset := offset + 1;
      }
      if offset == |content| {
        offset := offset - 1;
      }
    }

    /** skip_utf8_bom, at the start of the buffer. */
    method SkipBom()
      requires offset == 0
      modifies this`offset
      ensures offset == if |content| > 4 && content[..3] == [0xEF, 0xBB, 0xBF] then 3 else 0
    {
      if CanAccess(4) && content[offset..offset + 3] == [0xEF, 0xBB, 0xBF] {
        offset := offset + 3;
      }
    }
  }

  // ---- strings ----

  /** The first pass of parse_string: the closing quote and the number of escapes before it. */
  method FindEnd(s: Bytes, start: nat) returns (ok: bool, end: nat, skipped: nat)
    requires start <= |s|
    ensures ok <==> FindClose(s, start).Some?
    ensures ok ==> FindClose(s, start) == Some(end) && skipped == Starts(s, start, end)
  {
    end, skipped := start, 0;
    ghost var close := FindClose(s, start);
    while end < |s| && s[end] != QUOTE
      invariant start <= end <= |s| && FindClose(s, end) == close
      invariant close.Some? ==>
        end <= close.value
        && skipped + Starts(s, end, close.value) == Starts(s, start, close.value)
      decreases |s| - end
    {
      if s[end] == BACKSLASH {
        if end + 1 >= |s| {
          return false, end, skipped;
        }
        skipped := skipped + 1;
        end := end + 1;
      }
      end := end + 1;
    }
    ok := end < |s|;
  }

  /** One turn of the second pass of parse_string. */
  method DecodeOne(s: Bytes, i: nat, end: nat, output: array<byte>, o: nat)
    returns (ok: bool, next: nat, position: nat)
    requires i < end < |s| && o <= output.Length
    requires Step(s, i, end).Some? ==> o + |Step(s, i, end).value.0| <= output.Length
    modifies output
    ensures ok <==> Step(s, i, end).Some?
    ensures !ok ==> next == i
    ensures ok ==>
      var (b, n) := Step(s, i, end).value;
      next == n && position == o + |b| <= output.Length && output[..position] == old(output[..o]) + b
  {
    hide Literal, Utf8;
    next, position := i, o;
    if s[i] != BACKSLASH {
      output[o] := s[i];
      return true, i + 1, o + 1;
    }
    var simple := SimpleEscape(s[i + 1]);
    if simple.Some? {
      output[o] := simple.value;
      return true, i + 2, o + 1;
    }
    if s[i + 1] != LETTER_U {
      return false, i, o;
    }
    var length, after := LiteralToUtf8(s, i, end, output, o);
    if length == 0 {
      return false, i, o;
    }
    return true, i + length, after;
  }

  /** The second pass of parse_string. It never writes outside `output`, whose length is what the
      first pass computed. */
  method Unescape(s: Bytes, start: nat, end: nat, output: array<byte>) returns (ok: bool, i: nat, o: nat)
    requires start <= |s| && FindClose(s, start) == Some(end)
    requires output.Length == end + 1 - start - Starts(s, start, end) + 1
    modifies output
    ensures ok <==> Decode(s, start, end).Some?
    ensures ok ==> o < output.Length && output[..o] == Decode(s, start, end).value
    ensures !ok ==> start <= i < end
  {
    hide Step, Starts, FindClose;
    i, o := start, 0;
    ghost var whole := Decode(s, start, end);
    NoStarts(s, start);
    assert output[..0] == [] && (whole.Some? ==> [] + whole.value == whole.value);
    while i < end
      invariant start <= i <= end + 1 && o <= output.Length && o + Starts(s, start, i) <= i - start
      invariant whole == Joined(output[..o], Decode(s, i, end))
      decreases end + 1 - i
    {
      if Step(s, i, end).Some? {
        StepBudget(s, start, i, end, o);
      }
      ghost var written := output[..o];
      ghost var at := i;
      ok, i, o := DecodeOne(s, i, end, output, o);
      DecodeFrom(s, at, end, written);
      if !ok {
        return;
      }
    }
    BudgetIsAllocation(s, start, i, end, o);
    ok := true;
  }

  function Joined(written: Bytes, rest: Option<Bytes>): Option<Bytes> {
    match rest
    case None => None
    case Some(r) => Some(written + r)
  }

  lemma NoStarts(s: Bytes, start: nat)
    requires start <= |s|
    ensures Starts(s, start, start) == 0
  {
  }

  lemma StepBudget(s: Bytes, start: nat, i: nat, end: nat, o: nat)
    requires start <= i < end < |s| && s[end] == QUOTE && o + Starts(s, start, i) <= i - start
    requires Step(s, i, end).Some?
    ensures var (b, next) := Step(s, i, end).value;
      next <= end + 1 && o + |b| + Starts(s, start, next) <= next - start
      && o + |b| <= end + 1 - start - Starts(s, start, end)
  {
    hide Starts, Literal, Utf8;
    var (b, next) := Step(s, i, end).value;
    StepFits(s, start, i, end);
    BudgetIsAllocation(s, start, next, end, o + |b|);
  }

  lemma DecodeFrom(s: Bytes, i: nat, end: nat, written: Bytes)
    requires i < end < |s|
    ensures Step(s, i, end) == None ==> Joined(written, Decode(s, i, end)) == None
    ensures Step(s, i, end).Some? ==>
      var (b, next) := Step(s, i, end).value;
      Joined(written, Decode(s, i, end)) == Joined(written + b, Decode(s, next, end))
  {
    hide Step;
    if Step(s, i, end).Some? {
      var (b, next) := Step(s, i, end).value;
      if Decode(s, next, end).Some? {
        var rest := Decode(s, next, end).value;
        assert written + (b + rest) == written + b + rest;
      }
    }
  }

  /** parse_string: the text goes into a fresh allocation, or nothing is kept. */
  method ParseStringInto(item: Node, input: ParseBuffer) returns (ok: bool)
    requires input.CanAccess(0) && Pending(item)
    modifies item`kind, item`valuestring, item`owned, input`offset, input.hooks
    ensures input.Valid()
    ensures ok ==>
      Strings.ParseString(input.content, old(input.offset)).Some?
      && var (text, end) := Strings.ParseString(input.content, old(input.offset)).value;
      input.offset == end && item.kind == IsString && item.valuestring != null && fresh(item.valuestring)
      && IsText(item.valuestring) && TextOf(item.valuestring) == CString(text)
      && item.owned == old(item.owned) + {item.valuestring}
      && input.hooks.live == old(input.hooks.live) + {item.valuestring}
    ensures !ok ==>
      unchanged(item) && input.hooks.live == old(input.hooks.live)
      && (Strings.ParseString(input.content, old(input.offset)) == None || input.hooks.failed)
    ensures old(input.hooks.failed) ==> input.hooks.failed
  {
    hide Node.Ready, FindClose, Decode, Starts;
    var s := input.content;
    var start := input.offset + 1;
    if s[input.offset] != QUOTE {
      input.offset := start;
      return false;
    }
    var closed, end, skipped := FindEnd(s, start);
    if !closed {
      input.offset := start;
      return false;
    }
    StartsAreFew(s, start, end);
    var allocationLength := end - input.offset - skipped;
    var output := input.hooks.NewBytes(allocationLength + 1);
    if output == null {
      input.offset := start;
      return false;
    }
    var decoded, i, o := Unescape(s, start, end, output);
    if !decoded {
      input.hooks.Free(output);
      input.offset := i;
      return false;
    }
    output[o] := NUL;
    TerminatedText(output, o);
    item.kind := IsString;
    item.valuestring := output;
    item.owned := item.owned + {output};
    input.offset := end;
    input.offset := input.offset + 1;
    return true;
  }

  lemma StartsAreFew(s: Bytes, start: nat, end: nat)
    requires start <= end <= |s|
    ensures Starts(s, start, end) <= end - start
  {
    StartsApart(s, start, start, end);
  }

  lemma TerminatedText(b: array<byte>, o: nat)
    requires o < b.Length && b[o] == NUL
    ensures IsText(b) && TextOf(b) == CString(b[..o])
  {
    var c := CString(b[..o]);
    assert b[..o][..|c|] == b[..|c|];
    assert |c| < o ==> b[|c|] == b[..o][|c|];
    CStringAt(b[..], |c|);
  }

  // ---- numbers ----

  lemma TokenGoesOn(s: Bytes, off: nat, e: nat)
    requires off <= e < |s| && e < off + MAX_TOKEN && IsNumberChar(s[e])
    ensures TokenEnd(s, off, e + 1) == TokenEnd(s, off, e)
  {
  }

  lemma TokenStops(s: Bytes, off: nat, e: nat)
    requires off <= e <= |s| && e <= off + MAX_TOKEN && (e == off + MAX_TOKEN || e == |s| || !IsNumberChar(s[e]))
    ensures TokenEnd(s, off, e) == e
  {
  }

  /** parse_number. */
  method ParseNumberInto(item: Node, input: ParseBuffer) returns (ok: bool)
    requires input.Valid() && Pending(item)
    modifies item`kind, item`valueint, item`valuedouble, input`offset
    ensures input.Valid()
    ensures ok ==>
      item.kind == IsNumber && item.valueint == ValueInt(item.valuedouble)
      && Grammar.ParseNumber(input.content, old(input.offset)) == Some((Num(item.valuedouble), input.offset))
    ensures !ok ==> unchanged(item) && Grammar.ParseNumber(input.content, old(input.offset)) == None
  {
    hide Strtod, Node.Ready, TokenEnd;
    var s, off := input.content, input.offset;
    var numberCString := new byte[64];
    var i := 0;
    while i < 63 && input.CanAccess(i) && IsNumberChar(s[off + i])
      invariant i <= 63 && off + i <= |s| && TokenEnd(s, off, off + i) == TokenEnd(s, off, off)
      invariant numberCString[..i] == s[off..off + i]
      modifies numberCString
    {
      TokenGoesOn(s, off, off + i);
      numberCString[i] := s[off + i];
      i := i + 1;
    }
    TokenStops(s, off, off + i);
    numberCString[i] := NUL;
    assert numberCString[..i] == s[off..off + i] == Token(s, off);
    var number := Strtod(numberCString[..i]);
    if number == None {
      return false;
    }
    var (value, used) := number.value;
    item.valuedouble := value;
    if value >= INT_MAX as real {
      item.valueint := INT_MAX;
    } else if value <= INT_MIN as real {
      item.valueint := INT_MIN;
    } else {
      item.valueint := if value >= 0.0 then value.Floor else -((-value).Floor);
    }
    item.kind := IsNumber;
    input.offset := input.offset + used;
    return true;
  }
}
