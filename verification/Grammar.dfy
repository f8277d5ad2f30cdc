/** What the recursive-descent parser computes on a buffer, as functions of the buffer. */
module Grammar {
  import opened Bytes
  import opened Json
  import opened Numbers
  import opened Strings
  import opened Rendering

  /** First position at or after `i` whose byte is above 32. */
  function WsEnd(s: Bytes, i: nat): (e: nat)
    requires i <= |s|
    ensures i <= e <= |s|
    ensures forall k :: i <= k < e ==> s[k] <= 32
    ensures e < |s| ==> s[e] > 32
    decreases |s| - i
  {
    if i < |s| && s[i] <= 32 then WsEnd(s, i + 1) else i
  }

  /** buffer_skip_whitespace: stops on the last byte rather than after it, unless it began there. */
  function SkipWs(s: Bytes, i: nat): (e: nat)
    requires i <= |s|
    ensures i <= e <= |s|
    ensures i < |s| ==> e < |s|
  {
    if i < |s| && WsEnd(s, i) == |s| then |s| - 1 else WsEnd(s, i)
  }

  /** parse_value at `off` with `depth` containers open: the tree and the new offset. */
  function ParseValue(s: Bytes, off: nat, depth: int): (r: Option<(J, nat)>)
    requires off <= |s|
    ensures r.Some? ==> off < r.value.1 <= |s|
    decreases |s| - off, 3
  {
    if At(s, off, NULL_WORD) then Some((Null, off + 4))
    else if At(s, off, FALSE_WORD) then Some((False, off + 5))
    else if At(s, off, TRUE_WORD) then Some((True, off + 4))
    else if off == |s| then None
    else if s[off] == QUOTE then
      match ParseString(s, off)
      case None => None
      case Some((text, end)) => Some((Str(CString(text)), end))
    else if s[off] == MINUS || IsDigit(s[off]) then ParseNumber(s, off)
    else if s[off] == LBRACKET || s[off] == LBRACE then ParseContainer(s, off, depth)
    else None
  }

  function ParseNumber(s: Bytes, off: nat): (r: Option<(J, nat)>)
    requires off <= |s|
    ensures r.Some? ==> off < r.value.1 <= |s|
  {
    match Strtod(Token(s, off))
    case None => None
    case Some((value, used)) => Some((Num(value), off + used))
  }

  /** parse_array and parse_object, from the opening bracket on. */
  function ParseContainer(s: Bytes, off: nat, depth: int): (r: Option<(J, nat)>)
    requires off < |s|
    ensures r.Some? ==> off < r.value.1 <= |s|
    decreases |s| - off, 2
  {
    if depth >= NESTING_LIMIT then None
    else
      var first := SkipWs(s, off + 1);
      if first == |s| then None
      else if s[off] == LBRACKET then
        if s[first] == RBRACKET then Some((Arr([]), first + 1))
        else
          match ParseElements(s, first - 1, depth + 1, [])
          case None => None
          case Some((xs, end)) => Some((Arr(xs), end))
      else
        if s[first] == RBRACE then Some((Obj([]), first + 1))
        else
          match ParseMembers(s, first - 1, depth + 1, [])
          case None => None
          case Some((ms, end)) => Some((Obj(ms), end))
  }

  /** The element loop: `off` is the position before an element, `done` the elements already read. */
  function ParseElements(s: Bytes, off: nat, depth: int, done: seq<J>): (r: Option<(seq<J>, nat)>)
    requires off < |s|
    ensures r.Some? ==> off < r.value.1 <= |s|
    decreases |s| - off, 0
  {
    match ParseValue(s, SkipWs(s, off + 1), depth)
    case None => None
    case Some((x, end)) =>
      var next := SkipWs(s, end);
      if next < |s| && s[next] == COMMA then ParseElements(s, next, depth, done + [x])
      else if next < |s| && s[next] == RBRACKET then Some((done + [x], next + 1))
      else None
  }

  /** One member from the position before it: key, colon and value, with the offset after them. */
  function ParseMember(s: Bytes, off: nat, depth: int): (r: Option<(Member, nat)>)
    requires off < |s|
    ensures r.Some? ==> off < r.value.1 <= |s|
    decreases |s| - off, 0
  {
    if off + 1 == |s| then None
    else
      match ParseString(s, SkipWs(s, off + 1))
      case None => None
      case Some((key, end)) =>
        var colon := SkipWs(s, end);
        if colon == |s| || s[colon] != COLON then None
        else
          match ParseValue(s, SkipWs(s, colon + 1), depth)
          case None => None
          case Some((x, after)) => Some((Member(CString(key), x), after))
  }

  /** The member loop. */
  function ParseMembers(s: Bytes, off: nat, depth: int, done: seq<Member>): (r: Option<(seq<Member>, nat)>)
    requires off < |s|
    ensures r.Some? ==> off < r.value.1 <= |s|
    decreases |s| - off, 1
  {
    match ParseMember(s, off, depth)
    case None => None
    case Some((m, end)) =>
      var next := SkipWs(s, end);
      if next < |s| && s[next] == COMMA then ParseMembers(s, next, depth, done + [m])
      else if next < |s| && s[next] == RBRACE then Some((done + [m], next + 1))
      else None
  }

  /** Where parsing starts: after a byte order mark, then after whitespace. */
  function Start(s: Bytes): (off: nat)
    ensures off <= |s|
  {
    SkipWs(s, if |s| > 4 && s[..3] == [0xEF, 0xBB, 0xBF] then 3 else 0)
  }

  /** cJSON_ParseWithLengthOpts on a buffer. */
  function ParseBuffer(s: Bytes, requireTerminator: bool): Option<J> {
    if s == [] then None
    else
      match ParseValue(s, Start(s), 0)
      case None => None
      case Some((j, end)) =>
        var last := SkipWs(s, end);
        if requireTerminator && (last == |s| || s[last] != NUL) then None else Some(j)
  }

  /** Where a successful parse ends: after the value or, if a terminator is asked for, at it. */
  function ParseEnd(s: Bytes, requireTerminator: bool): (end: nat)
    requires ParseBuffer(s, requireTerminator).Some?
    ensures end <= |s| && (requireTerminator ==> end < |s| && s[end] == NUL)
  {
    var after := ParseValue(s, Start(s), 0).value.1;
    if requireTerminator then SkipWs(s, after) else after
  }

  /** cJSON_Parse on a C string: its terminator is part of the buffer. */
  function Parse(text: Bytes): Option<J> {
    ParseBuffer(text + [NUL], false)
  }
}
