/** The recursive-descent parser: a buffer to a tree of nodes, or to nothing at all. */
module Parser {
  import opened Bytes
  import opened Json
  import opened Strings
  import opened Rendering
  import opened Grammar
  import opened Nodes
  import opened TreeEdits
  import opened Chains
  import opened ParseBuffers

  /** The parser's own state is not in `s`. */
  ghost predicate Outside(s: set<object>, input: ParseBuffer) {
    input !in s && input.hooks !in s
  }

  /** Elements of a parsed array have no names. */
  ghost predicate Nameless(nodes: seq<Node>)
    reads nodes`key
  {
    forall n | n in nodes :: n.key == null
  }

  /** What every parsing step promises. On success the node is a whole tree, and what it newly owns is
      exactly what was newly allocated; on failure nothing changed and nothing is left allocated. */
  twostate predicate ParsedInto(item: Node, input: ParseBuffer, ok: bool, spec: Option<(J, nat)>)
    reads item, item.owned, item.children`key, input, input.hooks
  {
    input.Valid() && (old(input.hooks.failed) ==> input.hooks.failed)
    && (ok ==>
          spec == Some((item.tree, input.offset)) && item.Valid() && input.depth == old(input.depth)
          && (item.kind == IsArray ==> Nameless(item.children)) && (item.kind == IsTrue ==> item.valueint == 1)
          && item !in item.owned && old(item.owned) <= item.owned && fresh(item.owned - old(item.owned))
          && input.hooks.live == old(input.hooks.live) + (item.owned - old(item.owned)))
    && (!ok ==> unchanged(item) && input.hooks.live == old(input.hooks.live) && (spec == None || input.hooks.failed))
  }

  /** Stepping over a byte and the whitespace after it. */
  method StepOver(input: ParseBuffer)
    requires input.CanAccess(0)
    modifies input`offset
    ensures input.Valid() && input.offset == SkipWs(input.content, old(input.offset) + 1)
  {
    input.offset := input.offset + 1;
    input.SkipWhitespace();
  }

  /** The new node and all it owns are apart from the children parsed before. */
  ghost predicate Newcomer(head: Node, nodes: seq<Node>, item: Node, kind: Kind, input: ParseBuffer)
    reads nodes, Below(nodes), item`next, item`prev, item`owned
  {
    Attached(head, nodes, item, kind) && item.owned !! Footprint(nodes) && item !in item.owned
    && Outside(Footprint(nodes) + item.Share(), input)
  }

  lemma NewcomerIsAllocated(head: Node, nodes: seq<Node>, item: Node, kind: Kind, input: ParseBuffer)
    requires Newcomer(head, nodes, item, kind, input)
    ensures forall o | o in Footprint(nodes) :: allocated(o)
    ensures Footprint(nodes) == (set n | n in nodes) + Below(nodes)
    ensures Attached(head, nodes, item, kind) && Outside(Footprint(nodes) + item.Share(), input)
    ensures item !in Footprint(nodes) && item.owned !! Footprint(nodes) && item !in item.owned
  {
    WholesAreFlat(nodes, kind);
  }

  /** The outcome of parsing the value after the byte at `off`, with the whitespace around it. */
  predicate ValueFollows(s: Bytes, off: nat, depth: nat, ok: bool, x: J, end: nat, failed: bool)
    requires off < |s|
  {
    match Grammar.ParseValue(s, SkipWs(s, off + 1), depth)
    case None => !ok
    case Some((j, after)) => if ok then x == j && end == SkipWs(s, after) else failed
  }

  /** The value of the newest node, after the byte at the offset. */
  method Follow(head: Node, ghost nodes: seq<Node>, item: Node, ghost kind: Kind, input: ParseBuffer) returns (ok: bool)
    requires input.CanAccess(0) && Pending(item) && Newcomer(head, nodes, item, kind, input)
    requires kind == IsObject ==> item.key != null
    modifies item`kind, item`valuestring, item`valueint, item`valuedouble, item`child, item`children, item`owned
    modifies item`tree
    modifies input`offset, input`depth, input.hooks
    ensures input.Valid() && (old(input.hooks.failed) ==> input.hooks.failed)
    ensures old(item.owned) <= item.owned && fresh(item.owned - old(item.owned))
    ensures input.hooks.live == old(input.hooks.live) + (item.owned - old(item.owned))
    ensures Footprint(nodes + [item]) == old(Footprint(nodes)) + item.Share()
    ensures ok ==> Chain(head, item, nodes + [item], kind)
    ensures ok ==> input.depth == old(input.depth) && input.offset > old(input.offset)
    ensures !ok ==> Forest(head, nodes + [item])
    ensures ValueFollows(input.content, old(input.offset), old(input.depth), ok, item.tree, input.offset,
        input.hooks.failed)
    decreases |input.content| - input.offset, 0
  {
    hide Chain, Attached, Newcomer, Footprint, Below, Node.Ready, Node.Valid, Forest, Grammar.ParseValue, SkipWs;
    hide Pending;
    NewcomerIsAllocated(head, nodes, item, kind, input);
    StepOver(input);
    ok := ParseValueInto(item, input);
    if ok {
      input.SkipWhitespace();
    } else {
      PendingIsReady(item);
    }
    AttachedGrows(head, nodes, item, kind);
  }

  /** What a parsing loop promises about allocation: all that is new is in the list, whose footprint
      was `was` and is `now`. */
  twostate predicate Grown(input: ParseBuffer, was: set<object>, new now: set<object>)
    reads input`offset, input.hooks
  {
    input.Valid() && (old(input.hooks.failed) ==> input.hooks.failed)
    && was <= now && fresh(now - was) && input.hooks.live == old(input.hooks.live) + (now - was)
  }

  /** One turn of the loop of parse_array. */
  method ParseElement(head: Node?, last: Node?, ghost nodes: seq<Node>, input: ParseBuffer)
    returns (ok: bool, first: Node?, item: Node?, ghost all: seq<Node>)
    requires input.CanAccess(0) && Chain(head, last, nodes, IsArray) && Outside(Footprint(nodes), input)
    modifies One(last)`next, input`offset, input`depth, input.hooks
    ensures Grown(input, old(Footprint(nodes)), Footprint(all))
    ensures ok ==> Chain(first, item, all, IsArray) && item != null && all == nodes + [item] && item.key == null
    ensures ok ==> input.depth == old(input.depth) && input.offset > old(input.offset)
    ensures ok ==>
      ValueFollows(input.content, old(input.offset), old(input.depth), true, item.tree, input.offset,
          input.hooks.failed)
    ensures !ok ==> Forest(first, all)
    ensures !ok ==>
      input.hooks.failed || Grammar.ParseValue(input.content, SkipWs(input.content, old(input.offset) + 1),
          old(input.depth)) == None
    decreases |input.content| - input.offset, 1
  {
    hide Chain, Attached, Footprint, Below, Node.Ready, Node.Valid, Forest, Grammar.ParseValue, SkipWs, Pending;
    ChainIsAllocated(head, last, nodes, IsArray);
    item, first := Attach(head, last, nodes, IsArray, input.hooks);
    if item == null {
      ChainIsForest(head, last, nodes, IsArray);
      return false, first, null, nodes;
    }
    ok := Follow(first, nodes, item, IsArray, input);
    all := nodes + [item];
  }

  /** The loop of parse_array after an element: `end` is where the element and whitespace ended. */
  function AfterElement(s: Bytes, end: nat, depth: nat, done: seq<J>): Option<(seq<J>, nat)> {
    if end < |s| && s[end] == COMMA then Grammar.ParseElements(s, end, depth, done)
    else if end < |s| && s[end] == RBRACKET then Some((done, end + 1))
    else None
  }

  lemma ElementParsed(s: Bytes, off: nat, depth: nat, done: seq<J>, x: J, end: nat, failed: bool)
    requires off < |s|
    ensures ValueFollows(s, off, depth, true, x, end, failed)
      ==> Grammar.ParseElements(s, off, depth, done) == AfterElement(s, end, depth, done + [x])
    ensures Grammar.ParseValue(s, SkipWs(s, off + 1), depth) == None ==>
      Grammar.ParseElements(s, off, depth, done) == None
  {
    hide SkipWs, Grammar.ParseValue;
  }

  /** The loop of parse_array, from the position before the first element to the closing bracket. */
  method ParseElementsInto(input: ParseBuffer) returns (ok: bool, head: Node?, last: Node?, ghost nodes: seq<Node>)
    requires input.CanAccess(0)
    modifies input`offset, input`depth, input.hooks
    ensures Grown(input, {}, Footprint(nodes))
    ensures ok ==> Chain(head, last, nodes, IsArray) && input.depth == old(input.depth) && input.CanAccess(0)
    ensures ok ==> Nameless(nodes)
    ensures ok ==>
      Grammar.ParseElements(input.content, old(input.offset), old(input.depth), [])
        == Some((Trees(nodes), input.offset + 1))
    ensures !ok ==> Forest(head, nodes)
    ensures !ok ==>
      input.hooks.failed || Grammar.ParseElements(input.content, old(input.offset), old(input.depth), []) == None
    decreases |input.content| - input.offset, 2
  {
    hide Chain, Footprint, Below, Node.Ready, Node.Valid, Forest, Grammar.ParseValue, Grammar.ParseElements;
    hide SkipWs, Trees, ValueFollows;
    ghost var s, d := input.content, input.depth;
    ghost var spec := Grammar.ParseElements(s, input.offset, d, []);
    NoFootprint();
    NoChain(IsArray);
    head, last, nodes := null, null, [];
    assert Trees([]) == [];
    var more := true;
    while more
      invariant Grown(input, {}, Footprint(nodes)) && Chain(head, last, nodes, IsArray) && Nameless(nodes)
      invariant old(input.offset) <= input.offset && input.depth == d && (nodes != [] || more)
      invariant more ==> input.CanAccess(0) && spec == Grammar.ParseElements(s, input.offset, d, Trees(nodes))
      invariant !more ==> spec == AfterElement(s, input.offset, d, Trees(nodes)) && !input.IsAt(COMMA)
      decreases if more then |input.content| - input.offset + 1 else 0
    {
      ghost var before, done, off := nodes, Trees(nodes), input.offset;
      ChainIsAllocated(head, last, nodes, IsArray);
      ghost var f := Footprint(nodes);
      assert fresh(f);
      label Before:
      ok, head, last, nodes := ParseElement(head, last, nodes, input);
      ghost var g := Footprint(nodes);
      assert forall o | o in g && o !in f :: fresh@Before(o);
      assert fresh(g);
      if !ok {
        ElementParsed(s, off, d, done, Null, input.offset, input.hooks.failed);
        return;
      }
      ElementParsed(s, off, d, done, last.tree, input.offset, input.hooks.failed);
      TreesGrow(before, last);
      more := input.IsAt(COMMA);
    }
    ok := input.IsAt(RBRACKET);
    ChainIsForest(head, last, nodes, IsArray);
  }

  // ---- containers ----

  /** parse_array or parse_object at a byte that may not be the bracket they expect. */
  function ContainerAt(s: Bytes, off: nat, depth: nat, bracket: byte): Option<(J, nat)>
    requires off < |s| && (bracket == LBRACKET || bracket == LBRACE)
  {
    if s[off] == bracket then Grammar.ParseContainer(s, off, depth) else None
  }

  /** The elements after an opening bracket at `off`, and the offset after the closing one. */
  function ElementsAt(s: Bytes, off: nat, depth: nat): Option<(seq<J>, nat)>
    requires off < |s|
  {
    var first := SkipWs(s, off + 1);
    if first == |s| then None
    else if s[first] == RBRACKET then Some(([], first + 1))
    else Grammar.ParseElements(s, first - 1, depth, [])
  }

  lemma ArrayAt(s: Bytes, off: nat, depth: nat)
    requires off < |s|
    ensures ContainerAt(s, off, depth, LBRACKET) ==
      if depth >= NESTING_LIMIT || s[off] != LBRACKET then None
      else
        match ElementsAt(s, off, depth + 1)
        case None => None
        case Some((xs, end)) => Some((Arr(xs), end))
  {
    hide Grammar.ParseElements, SkipWs;
  }

  /** The failure exit of parse_array and parse_object. */
  method Discard(head: Node?, ghost nodes: seq<Node>, hooks: Allocator)
    requires Forest(head, nodes) && Footprint(nodes) <= hooks.live && hooks !in Footprint(nodes)
    modifies hooks`live
    ensures hooks.live == old(hooks.live) - old(Footprint(nodes))
  {
    NoFootprint();
    if head != null {
      Delete(head, nodes, Footprint(nodes), hooks);
    }
  }

  /** Elements of an array, from its opening to its closing bracket; a failure leaves none. */
  method ParseElementList(input: ParseBuffer) returns (ok: bool, head: Node?, last: Node?, ghost nodes: seq<Node>)
    requires input.CanAccess(0)
    modifies input`offset, input`depth, input.hooks
    ensures Grown(input, {}, Footprint(nodes))
    ensures ok ==> Chain(head, last, nodes, IsArray) && input.depth == old(input.depth) && input.CanAccess(0)
    ensures ok ==> Nameless(nodes)
    ensures ok ==>
      ElementsAt(input.content, old(input.offset), old(input.depth))
      == Some((Trees(nodes), input.offset + 1))
    ensures !ok ==> input.hooks.live == old(input.hooks.live)
    ensures !ok ==> input.hooks.failed || ElementsAt(input.content, old(input.offset), old(input.depth)) == None
    decreases |input.content| - input.offset, 3
  {
    hide Node.Valid, Node.Ready, Chain, Footprint, Forest, SkipWs, Grammar.ParseElements, Trees;
    NoFootprint();
    NoChain(IsArray);
    head, last, nodes := null, null, [];
    assert Trees([]) == [];
    StepOver(input);
    if input.IsAt(RBRACKET) {
      NoChain(IsArray);
      NoFootprint();
      return true, null, null, [];
    }
    if !input.CanAccess(0) {
      input.offset := input.offset - 1;
      NoFootprint();
      return false, null, null, [];
    }
    input.offset := input.offset - 1;
    label Listed:
    ok, head, last, nodes := ParseElementsInto(input);
    ghost var f := Footprint(nodes);
    assert forall o | o in f :: fresh@Listed(o);
    assert fresh(f);
    if !ok {
      Discard(head, nodes, input.hooks);
      NoFootprint();
      return false, null, null, [];
    }
  }

  /** The success exit of parse_array and parse_object. */
  method Complete(item: Node, kind: Kind, head: Node?, last: Node?, ghost nodes: seq<Node>, input: ParseBuffer)
    requires Pending(item) && Chain(head, last, nodes, kind) && IsContainer(kind) && Outside(item.Share(), input)
    requires item !in Footprint(nodes) && item.owned !! Footprint(nodes)
    requires input.CanAccess(0) && input.depth > 0 && input !in Footprint(nodes)
    modifies item`kind, item`child, item`children, item`owned, item`tree, One(head)`prev, input`offset, input`depth
    ensures item.Valid() && item !in item.owned && item.owned == old(item.owned) + old(Footprint(nodes))
    ensures Suit(nodes, kind) && item.tree == old(TreeOf(kind, nodes)) && item.kind == kind && item.children == nodes
    ensures input.offset == old(input.offset) + 1 && input.depth == old(input.depth) - 1
  {
    hide Node.Valid, Chain, Footprint, Pending, TreeOf, Suit;
    ChainLinks(head, last, nodes, kind);
    input.depth := input.depth - 1;
    Contain(item, kind, head, last, nodes);
    input.offset := input.offset + 1;
  }

  /** parse_array. */
  method ParseArrayInto(item: Node, input: ParseBuffer) returns (ok: bool)
    requires input.CanAccess(0) && Pending(item) && Outside(item.Share(), input)
    modifies item`kind, item`child, item`children, item`owned, item`tree, input`offset, input`depth, input.hooks
    ensures ParsedInto(item, input, ok, ContainerAt(input.content, old(input.offset), old(input.depth), LBRACKET))
    decreases |input.content| - input.offset, 4
  {
    hide Node.Valid, Node.Ready, Chain, Footprint, Pending, ContainerAt, ElementsAt, TreeOf, Trees, Suit, Nameless;
    PendingParts(item);
    NoFootprint();
    ArrayAt(input.content, input.offset, input.depth);
    if input.depth >= NESTING_LIMIT {
      return false;
    }
    input.depth := input.depth + 1;
    if input.content[input.offset] != LBRACKET {
      return false;
    }
    var head, last;
    ghost var nodes;
    ok, head, last, nodes := ParseElementList(input);
    if ok {
      ArrayTreeOf(nodes);
      ChainHead(head, last, nodes, IsArray);
      Complete(item, IsArray, head, last, nodes, input);
    }
  }

  // ---- members ----

  /** A member's name after the byte at `off`, and where its colon is. */
  function NameAt(s: Bytes, off: nat): (r: Option<(Bytes, nat)>)
    requires off < |s|
    ensures r.Some? ==> off < r.value.1 < |s|
  {
    if off + 1 == |s| then None
    else
      match Strings.ParseString(s, SkipWs(s, off + 1))
      case None => None
      case Some((key, end)) =>
        var colon := SkipWs(s, end);
        if colon == |s| || s[colon] != COLON then None else Some((CString(key), colon))
  }

  lemma MemberAt(s: Bytes, off: nat, depth: nat)
    requires off < |s|
    ensures Grammar.ParseMember(s, off, depth) ==
      match NameAt(s, off)
      case None => None
      case Some((key, colon)) =>
        match Grammar.ParseValue(s, SkipWs(s, colon + 1), depth)
        case None => None
        case Some((x, after)) => Some((Member(key, x), after))
  {
    hide SkipWs, Strings.ParseString, Grammar.ParseValue, CString;
  }

  /** The name of a member: parsed as a string, then moved to the key. */
  method ParseName(item: Node, input: ParseBuffer) returns (ok: bool)
    requires input.CanAccess(0) && Pending(item) && item.key == null && Outside(item.Share(), input)
    modifies item`kind, item`valuestring, item`key, item`owned, input`offset, input.hooks
    ensures input.Valid() && (old(input.hooks.failed) ==> input.hooks.failed)
    ensures Pending(item) && old(item.owned) <= item.owned && fresh(item.owned - old(item.owned)) && item !in item.owned
    ensures input.hooks.live == old(input.hooks.live) + (item.owned - old(item.owned))
    ensures ok ==>
      item.key != null && NameAt(input.content, old(input.offset)) == Some((TextOf(item.key), input.offset))
    ensures !ok ==> input.hooks.failed || NameAt(input.content, old(input.offset)) == None
  {
    hide CString, SkipWs, Strings.ParseString, Node.Ready, IsText;
    PendingParts(item);
    if !input.CanAccess(1) {
      return false;
    }
    StepOver(input);
    ok := ParseStringInto(item, input);
    if !ok {
      return;
    }
    item.key := item.valuestring;
    item.valuestring := null;
    input.SkipWhitespace();
    NamedIsPending(item);
    ok := input.IsAt(COLON);
  }

  lemma NamedIsPending(item: Node)
    requires item.valuestring == null && item.child == null && item.children == []
    requires item.key != null && IsText(item.key) && item.owned == {item.key}
    ensures Pending(item) && item !in item.owned
  {
    NoFootprint();
  }

  /** The outcome of parsing the member after the byte at `off`, with the whitespace around it. */
  predicate MemberFollows(s: Bytes, off: nat, depth: nat, m: Member, end: nat)
    requires off < |s|
  {
    match Grammar.ParseMember(s, off, depth)
    case None => false
    case Some((n, after)) => m == n && end == SkipWs(s, after)
  }

  lemma MemberParsed(s: Bytes, off: nat, depth: nat, key: Bytes, colon: nat)
    requires off < |s| && NameAt(s, off) == Some((key, colon))
    ensures colon < |s|
    ensures forall x, end, failed ::
      ValueFollows(s, colon, depth, true, x, end, failed) ==> MemberFollows(s, off, depth, Member(key, x), end)
    ensures forall x, end ::
      ValueFollows(s, colon, depth, false, x, end, false) ==> Grammar.ParseMember(s, off, depth) == None
  {
    hide SkipWs, Strings.ParseString, Grammar.ParseValue, CString, Grammar.ParseMember, NameAt;
    MemberAt(s, off, depth);
  }

  /** Name and value of the newest node, after the byte at the offset. */
  method FollowNamed(head: Node, ghost nodes: seq<Node>, item: Node, input: ParseBuffer) returns (ok: bool)
    requires input.CanAccess(0) && Pending(item) && item.key == null && Newcomer(head, nodes, item, IsObject, input)
    modifies item`kind, item`valuestring, item`valueint, item`valuedouble, item`child, item`children, item`owned
    modifies item`tree
    modifies item`key, input`offset, input`depth, input.hooks
    ensures input.Valid() && (old(input.hooks.failed) ==> input.hooks.failed)
    ensures old(item.owned) <= item.owned && fresh(item.owned - old(item.owned))
    ensures input.hooks.live == old(input.hooks.live) + (item.owned - old(item.owned))
    ensures Footprint(nodes + [item]) == old(Footprint(nodes)) + item.Share()
    ensures ok ==> Chain(head, item, nodes + [item], IsObject) && item.key != null
    ensures ok ==> input.depth == old(input.depth) && input.offset > old(input.offset)
    ensures !ok ==> Forest(head, nodes + [item])
    ensures ok ==>
      MemberFollows(input.content, old(input.offset), old(input.depth), Member(TextOf(item.key), item.tree),
          input.offset)
    ensures !ok ==>
      input.hooks.failed
      || Grammar.ParseMember(input.content, old(input.offset), old(input.depth)) == None
    decreases |input.content| - input.offset, 1
  {
    hide Chain, Attached, Footprint, Below, Node.Ready, Node.Valid, Forest, Pending, CString, Newcomer;
    hide Grammar.ParseMember, NameAt, MemberFollows, ValueFollows;
    ghost var s, off, depth := input.content, input.offset, input.depth;
    NewcomerIsAllocated(head, nodes, item, IsObject, input);
    MemberAt(s, off, depth);
    ok := ParseName(item, input);
    if !ok {
      PendingIsReady(item);
      AttachedGrows(head, nodes, item, IsObject);
      return;
    }
    MemberParsed(s, off, depth, TextOf(item.key), input.offset);
    MakeNewcomer(head, nodes, item, IsObject, input);
    ok := Follow(head, nodes, item, IsObject, input);
  }

  lemma MakeNewcomer(head: Node, nodes: seq<Node>, item: Node, kind: Kind, input: ParseBuffer)
    requires Attached(head, nodes, item, kind) && item.owned !! Footprint(nodes) && item !in item.owned
    requires Outside(Footprint(nodes), input) && Outside(item.owned, input)
    ensures Newcomer(head, nodes, item, kind, input)
  {
  }

  /** One turn of the loop of parse_object. */
  method ParseMemberInto(head: Node?, last: Node?, ghost nodes: seq<Node>, input: ParseBuffer)
    returns (ok: bool, first: Node?, item: Node?, ghost all: seq<Node>)
    requires input.CanAccess(0) && Chain(head, last, nodes, IsObject) && Outside(Footprint(nodes), input)
    modifies One(last)`next, input`offset, input`depth, input.hooks
    ensures Grown(input, old(Footprint(nodes)), Footprint(all))
    ensures ok ==> Chain(first, item, all, IsObject) && item != null && item.key != null && all == nodes + [item]
    ensures ok ==> input.depth == old(input.depth) && input.offset > old(input.offset)
    ensures ok ==>
      MemberFollows(input.content, old(input.offset), old(input.depth), Member(TextOf(item.key), item.tree),
          input.offset)
    ensures !ok ==> Forest(first, all)
    ensures !ok ==>
      input.hooks.failed
      || Grammar.ParseMember(input.content, old(input.offset), old(input.depth)) == None
    decreases |input.content| - input.offset, 2
  {
    hide Chain, Attached, Footprint, Below, Node.Ready, Node.Valid, Forest, Pending, CString, Newcomer;
    hide Grammar.ParseMember, MemberFollows;
    ChainIsAllocated(head, last, nodes, IsObject);
    item, first := Attach(head, last, nodes, IsObject, input.hooks);
    if item == null {
      ChainIsForest(head, last, nodes, IsObject);
      return false, first, null, nodes;
    }
    MakeNewcomer(first, nodes, item, IsObject, input);
    all := nodes + [item];
    ok := FollowNamed(first, nodes, item, input);
  }

  /** The loop of parse_object after a member: `end` is where the member and whitespace ended. */
  function AfterMember(s: Bytes, end: nat, depth: nat, done: seq<Member>): Option<(seq<Member>, nat)> {
    if end < |s| && s[end] == COMMA then Grammar.ParseMembers(s, end, depth, done)
    else if end < |s| && s[end] == RBRACE then Some((done, end + 1))
    else None
  }

  lemma MembersParsed(s: Bytes, off: nat, depth: nat, done: seq<Member>, m: Member, end: nat)
    requires off < |s|
    ensures MemberFollows(s, off, depth, m, end)
      ==> Grammar.ParseMembers(s, off, depth, done) == AfterMember(s, end, depth, done + [m])
    ensures Grammar.ParseMember(s, off, depth) == None ==> Grammar.ParseMembers(s, off, depth, done) == None
  {
    hide SkipWs, Grammar.ParseMember;
  }

  /** The loop of parse_object, from the position before the first member to the closing brace. */
  method ParseMembersInto(input: ParseBuffer) returns (ok: bool, head: Node?, last: Node?, ghost nodes: seq<Node>)
    requires input.CanAccess(0)
    modifies input`offset, input`depth, input.hooks
    ensures Grown(input, {}, Footprint(nodes))
    ensures ok ==> Chain(head, last, nodes, IsObject) && input.depth == old(input.depth) && input.CanAccess(0)
    ensures ok ==>
      Grammar.ParseMembers(input.content, old(input.offset), old(input.depth), [])
        == Some((Rows(nodes), input.offset + 1))
    ensures !ok ==> Forest(head, nodes)
    ensures !ok ==>
      input.hooks.failed || Grammar.ParseMembers(input.content, old(input.offset), old(input.depth), []) == None
    decreases |input.content| - input.offset, 3
  {
    hide Chain, Footprint, Below, Node.Ready, Node.Valid, Forest, Rows, CString, TextOf, MemberFollows;
    hide Grammar.ParseMember, Grammar.ParseMembers, SkipWs;
    ghost var s, d := input.content, input.depth;
    ghost var spec := Grammar.ParseMembers(s, input.offset, d, []);
    NoFootprint();
    NoChain(IsObject);
    head, last, nodes := null, null, [];
    assert Rows([]) == [];
    var more := true;
    while more
      invariant Grown(input, {}, Footprint(nodes)) && Chain(head, last, nodes, IsObject)
      invariant old(input.offset) <= input.offset && input.depth == d
      invariant more ==> input.CanAccess(0) && spec == Grammar.ParseMembers(s, input.offset, d, Rows(nodes))
      invariant !more ==> spec == AfterMember(s, input.offset, d, Rows(nodes)) && !input.IsAt(COMMA)
      decreases if more then |input.content| - input.offset + 1 else 0
    {
      ghost var before, done, off := nodes, Rows(nodes), input.offset;
      ChainIsAllocated(head, last, nodes, IsObject);
      ghost var f := Footprint(nodes);
      assert fresh(f);
      label Before:
      ok, head, last, nodes := ParseMemberInto(head, last, nodes, input);
      ghost var g := Footprint(nodes);
      assert forall o | o in g && o !in f :: fresh@Before(o);
      assert fresh(g);
      if !ok {
        MembersParsed(s, off, d, done, Member([], Null), input.offset);
        return;
      }
      MembersParsed(s, off, d, done, Member(TextOf(last.key), last.tree), input.offset);
      RowsGrow(before, last);
      more := input.IsAt(COMMA);
    }
    ok := input.IsAt(RBRACE);
    ChainIsForest(head, last, nodes, IsObject);
  }

  /** The members after an opening brace at `off`, and the offset after the closing one. */
  function MembersAt(s: Bytes, off: nat, depth: nat): Option<(seq<Member>, nat)>
    requires off < |s|
  {
    var first := SkipWs(s, off + 1);
    if first == |s| then None
    else if s[first] == RBRACE then Some(([], first + 1))
    else Grammar.ParseMembers(s, first - 1, depth, [])
  }

  lemma ObjectAt(s: Bytes, off: nat, depth: nat)
    requires off < |s|
    ensures ContainerAt(s, off, depth, LBRACE) ==
      if depth >= NESTING_LIMIT || s[off] != LBRACE then None
      else
        match MembersAt(s, off, depth + 1)
        case None => None
        case Some((ms, end)) => Some((Obj(ms), end))
  {
    hide Grammar.ParseMembers, SkipWs;
  }

  /** Members of an object, from its opening to its closing brace; a failure leaves none. */
  method ParseMemberList(input: ParseBuffer) returns (ok: bool, head: Node?, last: Node?, ghost nodes: seq<Node>)
    requires input.CanAccess(0)
    modifies input`offset, input`depth, input.hooks
    ensures Grown(input, {}, Footprint(nodes))
    ensures ok ==> Chain(head, last, nodes, IsObject) && input.depth == old(input.depth) && input.CanAccess(0)
    ensures ok ==>
      MembersAt(input.content, old(input.offset), old(input.depth))
      == Some((Rows(nodes), input.offset + 1))
    ensures !ok ==> input.hooks.live == old(input.hooks.live)
    ensures !ok ==> input.hooks.failed || MembersAt(input.content, old(input.offset), old(input.depth)) == None
    decreases |input.content| - input.offset, 4
  {
    hide Node.Valid, Node.Ready, Chain, Footprint, Forest, SkipWs, Grammar.ParseMembers, Rows;
    NoFootprint();
    head, last, nodes := null, null, [];
    StepOver(input);
    if input.IsAt(RBRACE) {
      NoChain(IsObject);
      NoFootprint();
      assert Rows([]) == [];
      return true, null, null, [];
    }
    if !input.CanAccess(0) {
      input.offset := input.offset - 1;
      NoFootprint();
      return false, null, null, [];
    }
    input.offset := input.offset - 1;
    label Listed:
    ok, head, last, nodes := ParseMembersInto(input);
    ghost var f := Footprint(nodes);
    assert forall o | o in f :: fresh@Listed(o);
    assert fresh(f);
    if !ok {
      Discard(head, nodes, input.hooks);
      NoFootprint();
      return false, null, null, [];
    }
  }

  /** parse_object. */
  method ParseObjectInto(item: Node, input: ParseBuffer) returns (ok: bool)
    requires input.CanAccess(0) && Pending(item) && Outside(item.Share(), input)
    modifies item`kind, item`child, item`children, item`owned, item`tree, input`offset, input`depth, input.hooks
    ensures ParsedInto(item, input, ok, ContainerAt(input.content, old(input.offset), old(input.depth), LBRACE))
    decreases |input.content| - input.offset, 5
  {
    hide Node.Valid, Node.Ready, Chain, Footprint, Pending, ContainerAt, MembersAt, TreeOf, Rows;
    PendingParts(item);
    NoFootprint();
    ObjectAt(input.content, input.offset, input.depth);
    if input.depth >= NESTING_LIMIT {
      return false;
    }
    input.depth := input.depth + 1;
    if !input.CanAccess(0) || input.content[input.offset] != LBRACE {
      return false;
    }
    var head, last;
    ghost var nodes;
    ok, head, last, nodes := ParseMemberList(input);
    if ok {
      ChainSuits(head, last, nodes, IsObject);
      ObjectTreeOf(nodes);
      ChainHead(head, last, nodes, IsObject);
      Complete(item, IsObject, head, last, nodes, input);
    }
  }

  // ---- values ----

  /** The literals of parse_value. */
  method TakeLiteral(item: Node, input: ParseBuffer, kind: Kind, length: nat, ghost tree: J)
    requires Pending(item) && input.offset + length <= |input.content| && Outside(item.Share(), input)
    requires (kind == IsNull && tree == Null) || (kind == IsFalse && tree == False) || (kind == IsTrue && tree == True)
    modifies item`kind, item`valueint, item`tree, input`offset
    ensures item.Valid() && item !in item.owned && item.tree == tree && item.kind == kind
    ensures kind == IsTrue ==> item.valueint == 1
    ensures input.offset == old(input.offset) + length
  {
    hide Node.Valid, Node.Ready, Pending;
    PendingParts(item);
    item.kind := kind;
    if kind == IsTrue {
      item.valueint := 1;
    }
    item.tree := tree;
    input.offset := input.offset + length;
    LeafIsValid(item);
  }

  /** A string as a value. */
  method TakeString(item: Node, input: ParseBuffer) returns (ok: bool)
    requires input.CanAccess(0) && Pending(item) && Outside(item.Share(), input)
    modifies item`kind, item`valuestring, item`owned, item`tree, input`offset, input.hooks
    ensures ParsedInto(item, input, ok,
      match Strings.ParseString(input.content, old(input.offset))
      case None => None
      case Some((text, end)) => Some((Str(CString(text)), end)))
  {
    hide Node.Valid, Node.Ready, CString, IsText, Strings.ParseString;
    PendingParts(item);
    ok := ParseStringInto(item, input);
    if ok {
      item.tree := Str(TextOf(item.valuestring));
      StringIsValid(item);
    }
  }

  /** A number as a value. */
  method TakeNumber(item: Node, input: ParseBuffer) returns (ok: bool)
    requires input.Valid() && Pending(item) && Outside(item.Share(), input)
    modifies item`kind, item`valueint, item`valuedouble, item`tree, input`offset
    ensures ParsedInto(item, input, ok, Grammar.ParseNumber(input.content, old(input.offset)))
  {
    hide Node.Valid, Node.Ready, Pending, Grammar.ParseNumber;
    PendingParts(item);
    ok := ParseNumberInto(item, input);
    if ok {
      item.tree := Num(item.valuedouble);
      LeafIsValid(item);
    }
  }

  /** parse_value. */
  method ParseValueInto(item: Node, input: ParseBuffer) returns (ok: bool)
    requires input.Valid() && Pending(item) && Outside(item.Share(), input)
    modifies item`kind, item`valuestring, item`valueint, item`valuedouble, item`child, item`children, item`owned
    modifies item`tree
    modifies input`offset, input`depth, input.hooks
    ensures ParsedInto(item, input, ok, Grammar.ParseValue(input.content, old(input.offset), old(input.depth)))
    decreases |input.content| - input.offset, 6
  {
    hide Node.Valid, Node.Ready, Pending, CString, Strings.ParseString, Grammar.ParseNumber, Grammar.ParseContainer, At;
    if At(input.content, input.offset, NULL_WORD) {
      WordFits(input.content, input.offset, NULL_WORD);
      TakeLiteral(item, input, IsNull, 4, Null);
      return true;
    }
    if At(input.content, input.offset, FALSE_WORD) {
      WordFits(input.content, input.offset, FALSE_WORD);
      TakeLiteral(item, input, IsFalse, 5, False);
      return true;
    }
    if At(input.content, input.offset, TRUE_WORD) {
      WordFits(input.content, input.offset, TRUE_WORD);
      TakeLiteral(item, input, IsTrue, 4, True);
      return true;
    }
    if input.IsAt(QUOTE) {
      ok := TakeString(item, input);
      return;
    }
    if input.CanAccess(0) && (input.content[input.offset] == MINUS || ZERO <= input.content[input.offset] <= NINE) {
      ok := TakeNumber(item, input);
      return;
    }
    if input.IsAt(LBRACKET) {
      ok := ParseArrayInto(item, input);
      return;
    }
    if input.IsAt(LBRACE) {
      ok := ParseObjectInto(item, input);
      return;
    }
    return false;
  }

  lemma WordFits(s: Bytes, off: nat, word: Bytes)
    requires At(s, off, word)
    ensures off + |word| <= |s|
  {
  }

  // ---- entry points ----

  /** Byte order mark, whitespace, the value and, if asked for, the terminator after it. */
  method ParseRoot(item: Node, input: ParseBuffer, requireNullTerminated: bool) returns (ok: bool)
    requires Pending(item) && item.owned == {} && Outside(item.Share(), input)
    requires input.offset == 0 && input.depth == 0 && input.content != []
    modifies item`kind, item`valuestring, item`valueint, item`valuedouble, item`child, item`children, item`owned
    modifies item`tree
    modifies input`offset, input`depth, input.hooks
    ensures item.Ready() && fresh(item.owned) && input.hooks.live == old(input.hooks.live) + item.owned
    ensures item !in item.owned && Outside(item.owned, input) && (old(input.hooks.failed) ==> input.hooks.failed)
    ensures input.Valid()
    ensures ok ==>
      item.Valid() && Grammar.ParseBuffer(input.content, requireNullTerminated) == Some(item.tree)
      && input.offset == Grammar.ParseEnd(input.content, requireNullTerminated)
    ensures ok && item.kind == IsArray ==> Nameless(item.children)
    ensures !ok ==> input.hooks.failed || Grammar.ParseBuffer(input.content, requireNullTerminated) == None
  {
    hide Node.Valid, Node.Ready, Pending, Grammar.ParseValue, SkipWs;
    PendingParts(item);
    input.SkipBom();
    input.SkipWhitespace();
    ok := ParseValueInto(item, input);
    if !ok {
      PendingIsReady(item);
      return;
    }
    ValidIsReady(item);
    if requireNullTerminated {
      input.SkipWhitespace();
      ok := input.IsAt(NUL);
    }
  }

  /** cJSON_ParseWithLengthOpts: the tree the grammar gives, in nodes that own all that was allocated;
      or null, and nothing is left allocated. `parseEnd` is what return_parse_end points to: where the
      parse ended or, after a failure, some position inside the buffer. */
  method ParseWithLengthOpts(value: Bytes, requireNullTerminated: bool, hooks: Allocator)
    returns (item: Node?, parseEnd: nat)
    modifies hooks
    ensures old(hooks.failed) ==> hooks.failed
    ensures item != null ==>
      fresh(item.Share()) && item.Valid() && item.next == null && item.prev == null && item.key == null
      && hooks.live == old(hooks.live) + item.Share()
      && Grammar.ParseBuffer(value, requireNullTerminated) == Some(item.tree)
      && parseEnd == Grammar.ParseEnd(value, requireNullTerminated)
      && (item.kind == IsArray ==> Nameless(item.children))
    ensures item == null ==>
      hooks.live == old(hooks.live) && (hooks.failed || Grammar.ParseBuffer(value, requireNullTerminated) == None)
      && (if value == [] then parseEnd == 0 else parseEnd < |value|)
  {
    hide Node.Valid, Node.Ready, Pending, Forest, Footprint, Grammar.ParseValue, SkipWs;
    if |value| == 0 {
      return null, 0;
    }
    var buffer := new ParseBuffers.ParseBuffer(value, hooks);
    item := hooks.NewItem();
    if item == null {
      return null, buffer.offset;
    }
    BlankIsPending(item);
    var ok := ParseRoot(item, buffer, requireNullTerminated);
    parseEnd := buffer.offset;
    if !ok {
      DeleteTree(item, hooks);
      item := null;
      if buffer.offset >= |value| {
        parseEnd := |value| - 1;
      }
    }
  }

  /** cJSON_Parse: a C string, with its terminator, is the buffer. */
  method Parse(value: array?<byte>, hooks: Allocator) returns (item: Node?)
    requires value != null ==> IsText(value)
    modifies hooks
    ensures old(hooks.failed) ==> hooks.failed
    ensures item != null ==>
      value != null && fresh(item.Share()) && item.Valid() && item.next == null && item.prev == null && item.key == null
      && hooks.live == old(hooks.live) + item.Share() && Grammar.Parse(TextOf(value)) == Some(item.tree)
      && (item.kind == IsArray ==> Nameless(item.children))
    ensures item == null ==>
      hooks.live == old(hooks.live) && (value == null || hooks.failed || Grammar.Parse(TextOf(value)) == None)
  {
    hide Node.Valid, Grammar.ParseBuffer, IsText, CString;
    if value == null {
      return null;
    }
    var parseEnd;
    item, parseEnd := ParseWithLengthOpts(TextOf(value) + [NUL], false, hooks);
  }
}
