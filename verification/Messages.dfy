/** The message class: a server message that owns a tree of nodes. */
module Messages {
  import opened Bytes
  import opened Json
  import opened Rendering
  import opened Compare
  import opened Grammar
  import opened Nodes
  import opened TreeEdits
  import opened Chains
  import opened Builders
  import opened Duplicates
  import opened Lookups
  import opened Printer
  import opened Parser
  import opened Wire

  /** A printable object under construction, with all it owns allocated. */
  ghost predicate Built(root: Node, hooks: Allocator)
    reads root, root.owned, hooks
  {
    root.Valid() && root.kind == IsObject && Printable(root.tree) && root.next == null
    && root.Share() <= hooks.live && hooks !in root.Share()
  }

  /** What adding a field to `root` promises: what is new belongs to the object; the field is there, or
      an allocation failed and nothing is added. */
  twostate predicate Extended(root: Node, hooks: Allocator, name: Bytes, value: J)
    reads root, root.owned, hooks
  {
    Built(root, hooks) && (old(hooks.failed) ==> hooks.failed)
    && old(root.owned) <= root.owned && fresh(root.owned - old(root.owned))
    && hooks.live == old(hooks.live) + (root.owned - old(root.owned))
    && (root.tree == WithNamed(IsObject, old(root.tree), name, value) || (hooks.failed && root.tree == old(root.tree)))
  }

  lemma PrintableGrows(tree: J, name: Bytes, value: J)
    requires Printable(tree) && tree.Obj? && NulFree(name) && Printable(value)
    ensures Printable(WithNamed(IsObject, tree, name, value))
    ensures WithNamed(IsObject, tree, name, value) == Obj(tree.members + [Member(name, value)])
  {
    assert Entries(tree) == tree.members;
  }

  /** A number field of the envelope. */
  method AddField(root: Node?, name: Bytes, number: int, hooks: Allocator)
    requires NulFree(name) && IsInt(number) && (root != null ==> Built(root, hooks))
    modifies Whole(root), hooks
    ensures old(hooks.failed) ==> hooks.failed
    ensures root == null ==> hooks.live == old(hooks.live)
    ensures root != null ==> Extended(root, hooks, name, Num(number as real))
  {
    hide Node.Valid, Node.Ready, WithNamed, IsText, CString, Printable, NulFree;
    var text := NewText(name);
    if root != null {
      ObjectTreeIs(root);
      NotItsOwnChild(root);
      NumberIsPrintable(number);
      PrintableGrows(root.tree, name, Num(number as real));
    }
    var item := AddNumberToObject(root, text, number as real, hooks);
  }

  lemma NumberIsPrintable(number: int)
    requires IsInt(number)
    ensures Printable(Num(number as real))
  {
    NumberIsInt(number);
  }

  lemma NotItsOwnChild(root: Node)
    requires root.Valid()
    ensures root !in root.children && forall c | c in root.children :: c in root.owned
  {
    ValidParts(root);
  }

  lemma ObjectTreeIs(root: Node)
    requires root.Valid() && root.kind == IsObject
    ensures root.tree.Obj?
  {
  }

  /** The tree after the content has been added, if it can be. */
  function WithContent(tree: J, content: Option<J>): J {
    if content.Some? && DepthOK(content.value, 0) then WithNamed(IsObject, tree, CONTENT, content.value) else tree
  }

  /** A copy of the content becomes the content field. */
  method AddCopy(root: Node, copy: Node, hooks: Allocator) returns (added: bool)
    requires Built(root, hooks) && copy.Valid() && copy.next == null && Printable(copy.tree)
    requires root.Share() !! copy.Share() && copy.Share() <= hooks.live && hooks !in copy.Share()
    modifies root`child, root`children, root`owned, root`tree, root.children`next, root.children`prev
    modifies copy`next, copy`prev, copy`key, copy`owned, hooks
    ensures (old(hooks.failed) ==> hooks.failed) && Built(root, hooks)
    ensures added ==>
      root.tree == old(WithNamed(IsObject, root.tree, CONTENT, copy.tree))
      && old(root.owned) <= root.owned
      && (forall o | o in root.owned :: o in old(root.owned + copy.Share()) || fresh(o))
      && hooks.live == old(hooks.live) - old(copy.Share()) + (root.owned - old(root.owned))
    ensures !added ==> hooks.failed && hooks.live == old(hooks.live) && unchanged(root) && unchanged(copy)
  {
    hide Node.Valid, Node.Ready, WithNamed, IsText, CString, Printable, NulFree;
    ContentNameIsText();
    var name := NewText(CONTENT);
    ObjectTreeIs(root);
    NotItsOwnChild(root);
    PrintableGrows(root.tree, CONTENT, copy.tree);
    added := AddItemToObject(root, name, copy, hooks);
  }

  /** The content field: a deep copy, if there is a content and it is not too deep. A copy that cannot be
      added, for want of an object or of memory, is lost: nothing frees it. */
  method AddContent(root: Node?, content: Node?, hooks: Allocator) returns (ghost lost: Node?)
    requires root != null ==> Built(root, hooks)
    requires content != null ==> Source(content) && hooks !in content.Share()
    modifies Whole(root), hooks
    ensures old(hooks.failed) ==> hooks.failed
    ensures lost != null ==>
      (hooks.failed || root == null)
      && fresh(lost.Share()) && lost.Valid() && Some(lost.tree) == old(TreeAt(content))
    ensures root == null ==> hooks.live == old(hooks.live) + Whole(lost)
    ensures root != null ==>
      Built(root, hooks) && old(root.owned) <= root.owned && fresh(root.owned - old(root.owned))
      && Whole(lost) !! root.Share()
      && hooks.live == old(hooks.live) + (root.owned - old(root.owned)) + Whole(lost)
      && (root.tree == WithContent(old(root.tree), old(TreeAt(content)))
          || (hooks.failed && root.tree == old(root.tree)))
  {
    hide Node.Valid, Node.Ready, WithNamed, IsText, CString, Printable, DepthOK, NulFree, IsCopy;
    var copy := Duplicate(content, true, hooks);
    lost := copy;
    if copy != null {
      CopyParts(copy, content, content.tree);
      if root != null {
        NotItsOwnChild(root);
        var added := AddCopy(root, copy, hooks);
        if added {
          lost := null;
        }
      }
    }
  }

  lemma ContentNameIsText()
    ensures NulFree(CONTENT) && NulFree(CLIENT_ID) && NulFree(TYPE) && NulFree(SUB_TYPE)
  {
  }

  class Message {
    var clientID: int
    var kind: int
    var subType: int
    var content: Node?

    /** The fields are C ints, and the content is a tree of the message's own. */
    ghost predicate Valid(hooks: Allocator)
      reads this, One(content), if content == null then {} else content.owned
      reads hooks
    {
      IsInt(clientID) && IsInt(kind) && IsInt(subType)
      && (content != null ==>
            content.Valid() && content.next == null && content.Share() <= hooks.live
            && hooks !in content.Share() && this !in content.Share())
    }

    ghost function Value(): Letter
      reads this, One(content)
    {
      Letter(clientID, kind, subType, TreeAt(content))
    }

    /** Everything but the content is there and the content is owned. */
    constructor (clientID: int, kind: int, subType: int, content: Node?)
      ensures this.clientID == clientID && this.kind == kind && this.subType == subType && this.content == content
    {
      this.clientID, this.kind, this.subType, this.content := clientID, kind, subType, content;
    }

    /** The copy constructor. It does not report that the content could not be copied, because it is too
        deep or for want of memory. */
    constructor Copy(other: Message, hooks: Allocator)
      requires other.Valid(hooks)
      modifies hooks
      ensures Valid(hooks) && other.Valid(hooks)
      ensures fresh(Whole(content)) && hooks.live == old(hooks.live) + Whole(content)
      ensures old(hooks.failed) ==> hooks.failed
      ensures Value() == Copied(old(other.Value()))
        || (hooks.failed && Value() == old(other.Value()).(content := None))
    {
      hide Node.Valid, Node.Ready, DepthOK, IsCopy;
      clientID, kind, subType, content := other.clientID, other.kind, other.subType, null;
      new;
      var copy := Duplicate(other.content, true, hooks);
      if copy != null {
        CopyParts(copy, other.content, other.content.tree);
      }
      content := copy;
    }

    /** The destructor, and how operator= frees the old content. */
    method Destroy(hooks: Allocator)
      requires Valid(hooks)
      modifies hooks`live
      ensures hooks.live == old(hooks.live - Whole(content))
    {
      hide Node.Valid, Node.Ready;
      if content != null {
        ValidIsReady(content);
        DeleteTree(content, hooks);
      }
    }

    method TakeFields(other: Message)
      modifies this`clientID, this`kind, this`subType
      ensures clientID == other.clientID && kind == other.kind && subType == other.subType
      ensures other != this ==> unchanged(other)
    {
      clientID := other.clientID;
      kind := other.kind;
      subType := other.subType;
    }

    /** operator=. The fields are replaced and the old content is freed first, also when the copy then
        fails; false stands for the exception, which is also raised when the other message has no
        content. */
    method Assign(other: Message, hooks: Allocator) returns (ok: bool)
      requires Valid(hooks) && other.Valid(hooks)
      requires (this != other ==> Whole(content) !! Whole(other.content)) && this !in Whole(other.content)
      modifies this, hooks
      ensures Valid(hooks) && other.Valid(hooks) && (old(hooks.failed) ==> hooks.failed)
      ensures this == other ==> ok && unchanged(this) && unchanged(hooks)
      ensures this != other ==>
        hooks.live == old(hooks.live - Whole(content)) + Whole(content)
        && (ok <==> content != null) && (ok ==> fresh(content.Share()))
        && clientID == old(other.clientID) && kind == old(other.kind) && subType == old(other.subType)
        && (ok ==> Value() == old(other.Value()) && Copied(old(other.Value())).content.Some?)
        && (!ok ==> hooks.failed || Copied(old(other.Value())).content == None)
    {
      hide Node.Valid, Node.Ready, DepthOK, IsCopy;
      if this == other {
        return true;
      }
      TakeFields(other);
      Destroy(hooks);
      content := Duplicate(other.content, true, hooks);
      if content != null {
        CopyParts(content, other.content, other.content.tree);
      }
      ok := content != null;
    }

    /** toJSONString. Unless memory runs out it gives the wire form of the message, and all that was
        allocated on the way is freed. If it does, fields may be missing from the text, but then no
        receiver takes it for a message. None stands for the null pointer that reaches std::string when
        nothing could be printed. What stays allocated is then the object, and after a failure perhaps
        the copy of the content that could not be added to it; nothing else. */
    method ToJSONString(hooks: Allocator) returns (text: Option<Bytes>, ghost lost: Node?, ghost unprinted: Node?)
      requires Valid(hooks) && (content != null ==> Printable(content.tree))
      modifies hooks
      ensures Valid(hooks) && (old(hooks.failed) ==> hooks.failed)
      ensures !hooks.failed ==> text == if |Send(Value())| + 2 <= INT_MAX then Some(Send(Value())) else None
      ensures hooks.live == old(hooks.live) + Whole(lost) + Whole(unprinted)
      ensures lost != null ==> hooks.failed && fresh(lost.Share()) && Some(lost.tree) == Value().content
      ensures unprinted != null ==> text == None && fresh(unprinted.Share()) && PartOf(Value(), unprinted.tree)
      ensures text.Some? ==>
        NulFree(text.value)
        && (Receive(text.value) == None || Receive(text.value) == Some(Value()))
    {
      hide Node.Valid, Node.Ready, Text, DepthOK, CString, Receive, PartOf, NulFree, Printable;
      var root;
      root, lost := BuildEnvelope(this, hooks);
      if root == null {
        return None, lost, null;
      }
      AllOrNothing(Value(), root.tree);
      text := PrintAndFree(root, hooks);
      unprinted := if text == None then root else null;
    }
  }

  /** The end of toJSONString: the text of the object, which is then freed. */
  method PrintAndFree(root: Node, hooks: Allocator) returns (text: Option<Bytes>)
    requires Built(root, hooks)
    modifies hooks
    ensures old(hooks.failed) ==> hooks.failed
    ensures hooks.live == old(hooks.live) - Whole(if text.Some? then root else null)
    ensures text.Some? ==>
      text == Some(Text(old(root.tree), false, 0)) && NulFree(text.value) && |text.value| + 2 <= INT_MAX
    ensures text == None ==> hooks.failed || |Text(root.tree, false, 0)| + 2 > INT_MAX
  {
    hide Node.Valid, Node.Ready, Text, CString, Printable;
    var jsonStr := Print(root, false, true, hooks);
    if jsonStr == null {
      return None;
    }
    TextIsNulFree(root.tree, false, 0);
    PrintedText(jsonStr, Text(root.tree, false, 0));
    text := Some(TextOf(jsonStr));
    hooks.Free(jsonStr);
    ValidIsReady(root);
    DeleteTree(root, hooks);
  }

  lemma PrintedText(b: array<byte>, text: Bytes)
    requires b[..] == text + [NUL] && NulFree(text)
    ensures TextOf(b) == text
  {
    assert b[..|text|] == text;
    CStringAt(b[..], |text|);
  }

  /** The object of toJSONString with its number fields, without those for which memory ran out. */
  method BuildNumbers(m: Message, hooks: Allocator) returns (root: Node?)
    requires IsInt(m.clientID) && IsInt(m.kind) && IsInt(m.subType)
    modifies hooks
    ensures old(hooks.failed) ==> hooks.failed
    ensures (root == null ==> hooks.failed) && fresh(Whole(root)) && hooks.live == old(hooks.live) + Whole(root)
    ensures root != null ==> Built(root, hooks) && HasNumbers(m.Value(), root.tree, !hooks.failed)
  {
    hide Node.Valid, Node.Ready, WithNamed, Printable, NulFree, IsInt;
    ContentNameIsText();
    NoMembers();
    root := CreateObject(hooks);
    AddField(root, CLIENT_ID, m.clientID, hooks);
    ghost var first := if root == null then Null else root.tree;
    AddField(root, TYPE, m.kind, hooks);
    ghost var second := if root == null then Null else root.tree;
    AddField(root, SUB_TYPE, m.subType, hooks);
    if root != null {
      NumberParts(m.Value(), first, second, root.tree, !hooks.failed);
    }
  }

  /** The object that toJSONString prints. */
  method BuildEnvelope(m: Message, hooks: Allocator) returns (root: Node?, ghost lost: Node?)
    requires m.Valid(hooks) && (m.content != null ==> Printable(m.content.tree))
    modifies hooks
    ensures old(hooks.failed) ==> hooks.failed
    ensures root == null ==> hooks.failed
    ensures lost != null ==>
      hooks.failed && fresh(lost.Share()) && lost.Valid() && Some(lost.tree) == m.Value().content
    ensures Whole(lost) !! Whole(root) && hooks.live == old(hooks.live) + Whole(root) + Whole(lost)
    ensures root != null ==> Built(root, hooks) && fresh(root.Share()) && PartOf(m.Value(), root.tree)
    ensures root != null && !hooks.failed ==> root.tree == Envelope(m.Value())
  {
    hide Node.Valid, Node.Ready, DepthOK, WithContent, Printable, Envelope, PartOf, HasNumbers;
    root := BuildNumbers(m, hooks);
    ghost var numbers, allNumbers := if root == null then Null else root.tree, !hooks.failed;
    lost := AddContent(root, m.content, hooks);
    if root != null {
      EnvelopeParts(m.Value(), numbers, allNumbers, root.tree, !hooks.failed);
    }
  }

  /** Some of the number fields, all if there was memory. */
  ghost predicate HasNumbers(m: Letter, tree: J, all: bool) {
    (exists id, kind, subType :: tree == Chosen(m, id, kind, subType, false))
    && (all ==> tree == Chosen(m, true, true, true, false))
  }

  /** Each number field was added or not. */
  lemma NumberParts(m: Letter, first: J, second: J, third: J, all: bool)
    requires first == WithNamed(IsObject, Obj([]), CLIENT_ID, Num(m.clientID as real)) || (!all && first == Obj([]))
    requires second == WithNamed(IsObject, first, TYPE, Num(m.kind as real)) || (!all && second == first)
    requires third == WithNamed(IsObject, second, SUB_TYPE, Num(m.subType as real)) || (!all && third == second)
    ensures HasNumbers(m, third, all)
  {
    var id, kind, subType := first != Obj([]), second != first, third != second;
    assert first == Obj(if id then [Member(CLIENT_ID, Num(m.clientID as real))] else []);
    assert second == Obj(first.members + if kind then [Member(TYPE, Num(m.kind as real))] else []);
    assert third == Obj(second.members + if subType then [Member(SUB_TYPE, Num(m.subType as real))] else []);
    assert third == Chosen(m, id, kind, subType, false);
  }

  /** The content was added or not. */
  lemma EnvelopeParts(m: Letter, numbers: J, allNumbers: bool, tree: J, all: bool)
    requires HasNumbers(m, numbers, allNumbers) && (all ==> allNumbers)
    requires tree == WithContent(numbers, m.content) || (!all && tree == numbers)
    ensures PartOf(m, tree) && (all ==> tree == Envelope(m))
  {
    hide DepthOK, ContentMember, Chosen, Envelope, WithContent;
    var id, kind, subType :| numbers == Chosen(m, id, kind, subType, false);
    ContentAdded(m, id, kind, subType);
    ContentAdded(m, true, true, true);
    EnvelopeIsChosen(m);
    var content := tree == WithContent(numbers, m.content);
    assert tree == Chosen(m, id, kind, subType, content);
  }

  lemma ContentAdded(m: Letter, id: bool, kind: bool, subType: bool)
    ensures WithContent(Chosen(m, id, kind, subType, false), m.content) == Chosen(m, id, kind, subType, true)
  {
    hide DepthOK;
    var ms := Chosen(m, id, kind, subType, false).members;
    assert Chosen(m, id, kind, subType, true).members == ms + ContentMember(m.content);
    assert ContentMember(m.content) == [] ==> ms + ContentMember(m.content) == ms;
  }

  lemma EnvelopeIsChosen(m: Letter)
    ensures Chosen(m, true, true, true, true) == Envelope(m)
  {
    hide DepthOK, ContentMember;
    assert Chosen(m, true, true, true, true).members == Envelope(m).members;
  }

  lemma NoMembers()
    ensures Printable(Obj([]))
  {
  }

  /** What a lookup by name returns, for a parsed tree. */
  ghost predicate Looked(root: Node, found: Node?, name: Bytes)
    reads root`kind, root`tree, root`children, found
  {
    (found != null ==> found in root.children)
    && (if root.tree.Obj? then
          Find(root.tree.members, name, true) == if found == null then None else Some(found.tree)
        else found == null)
  }

  /** cJSON_GetObjectItemCaseSensitive on a parsed tree. */
  method Look(root: Node, name: Bytes) returns (found: Node?)
    requires root.Valid() && (root.kind == IsArray ==> Nameless(root.children)) && NulFree(name)
    ensures Looked(root, found, name)
  {
    hide Node.Valid, Node.Ready, IsText, CString, Find, FirstStop, NulFree;
    var text := NewText(name);
    ghost var k;
    ValidIsSearchable(root);
    found, k := ObjectItem(root, text, true);
    LookedUp(root, k, name);
  }

  lemma LookedUp(root: Node, k: nat, name: Bytes)
    requires root.Valid() && (root.kind == IsArray ==> Nameless(root.children))
    requires FirstStop(root.children, k, name, true)
    ensures Looked(root, Named(root.children, k), name)
  {
    hide Node.Valid, Node.Ready, IsText, CString, Find, FirstStop;
    ValidTree(root);
    if root.kind == IsObject {
      SearchIsFind(root, k, name, true);
    }
  }

  predicate Fits(id: Node?, kind: Node?, subType: Node?, content: Node?)
    reads One(id)`kind, One(kind)`kind, One(subType)`kind, One(content)`kind
  {
    id != null && kind != null && subType != null && content != null
    && id.kind == IsNumber && kind.kind == IsNumber && subType.kind == IsNumber && content.kind == IsObject
  }

  /** The test of fromJSONString, and what is then read, decide what the wire form says. */
  lemma Opened(root: Node, id: Node?, kind: Node?, subType: Node?, content: Node?)
    requires root.Valid()
    requires Looked(root, id, CLIENT_ID) && Looked(root, kind, TYPE) && Looked(root, subType, SUB_TYPE)
    requires Looked(root, content, CONTENT)
    ensures Wire.Open(root.tree) ==
      if Fits(id, kind, subType, content)
      then Some(Letter(id.valueint, kind.valueint, subType.valueint, CopyOf(content.tree)))
      else None
    ensures Fits(id, kind, subType, content) ==>
      IsInt(id.valueint) && IsInt(kind.valueint) && IsInt(subType.valueint) && content in root.children
  {
    hide Node.Valid, Node.Ready, Find, DepthOK;
    KindOfChild(root, id);
    KindOfChild(root, kind);
    KindOfChild(root, subType);
    KindOfChild(root, content);
  }

  lemma KindOfChild(root: Node, n: Node?)
    requires root.Valid() && (n != null ==> n in root.children)
    ensures n != null ==> (n.kind == IsNumber <==> n.tree.Num?) && (n.kind == IsObject <==> n.tree.Obj?)
    ensures n != null && n.kind == IsNumber ==> n.valueint == ValueInt(n.tree.valuedouble) && IsInt(n.valueint)
  {
    if n != null {
      ChildIsBelow(root, n);
      ValidTree(n);
    }
  }

  /** The lookups and the test of fromJSONString. */
  method ReadEnvelope(root: Node) returns (fits: bool, id: int, kind: int, subType: int, content: Node?)
    requires root.Valid() && (root.kind == IsArray ==> Nameless(root.children))
    ensures fits ==>
      content != null && content in root.children && IsInt(id) && IsInt(kind) && IsInt(subType)
      && Wire.Open(root.tree) == Some(Letter(id, kind, subType, CopyOf(content.tree)))
    ensures !fits ==> Wire.Open(root.tree) == None
  {
    hide Node.Valid, Node.Ready, NulFree, Looked, DepthOK, Wire.Open;
    ContentNameIsText();
    var idNode := Look(root, CLIENT_ID);
    var typeNode := Look(root, TYPE);
    var subTypeNode := Look(root, SUB_TYPE);
    content := Look(root, CONTENT);
    Opened(root, idNode, typeNode, subTypeNode, content);
    if idNode == null || idNode.kind != IsNumber || typeNode == null || typeNode.kind != IsNumber
       || subTypeNode == null || subTypeNode.kind != IsNumber || content == null || content.kind != IsObject {
      return false, 0, 0, 0, null;
    }
    return true, idNode.valueint, typeNode.valueint, subTypeNode.valueint, content;
  }

  /** fromJSONString. It reads what the wire form says, or null stands for the exception. When memory runs
      out for the copy of the content, a message without it is read all the same. Only the content of the
      message stays allocated. */
  method FromJSONString(jsonString: array<byte>, hooks: Allocator) returns (m: Message?)
    requires IsText(jsonString)
    modifies hooks
    ensures old(hooks.failed) ==> hooks.failed
    ensures m == null ==>
      hooks.live == old(hooks.live) && (hooks.failed || Receive(TextOf(jsonString)) == None)
    ensures m != null ==>
      fresh(m) && m.Valid(hooks) && Receive(TextOf(jsonString)).Some?
      && (Receive(TextOf(jsonString)) == Some(m.Value()) || (hooks.failed && m.content == null))
      && Receive(TextOf(jsonString)).value.(content := None) == m.Value().(content := None)
      && fresh(Whole(m.content)) && hooks.live == old(hooks.live) + Whole(m.content)
  {
    hide Node.Valid, Node.Ready, IsText, CString, DepthOK, Grammar.Parse, Wire.Open;
    var root := Parser.Parse(jsonString, hooks);
    if root == null {
      return null;
    }
    var fits, id, kind, subType, content := ReadEnvelope(root);
    if !fits {
      ValidIsReady(root);
      DeleteTree(root, hooks);
      return null;
    }
    m := Unwrap(root, id, kind, subType, content, hooks);
  }

  /** The end of fromJSONString: the content is copied and the parsed tree freed. */
  method Unwrap(root: Node, id: int, kind: int, subType: int, contentNode: Node, hooks: Allocator) returns (m: Message)
    requires root.Valid() && contentNode in root.children && root.next == null && IsInt(id) && IsInt(kind)
      && IsInt(subType)
    requires root.Share() <= hooks.live && hooks !in root.Share()
    modifies hooks
    ensures old(hooks.failed) ==> hooks.failed
    ensures fresh(m) && m.Valid(hooks) && m.clientID == id && m.kind == kind && m.subType == subType
    ensures m.content != null ==> fresh(m.content.Share()) && CopyOf(contentNode.tree) == Some(m.content.tree)
    ensures m.content == null ==> hooks.failed || CopyOf(contentNode.tree) == None
    ensures hooks.live == old(hooks.live - root.Share()) + Whole(m.content)
  {
    hide Node.Valid, Node.Ready, DepthOK, IsCopy;
    ChildIsBelow(root, contentNode);
    var contentCopy := Duplicate(contentNode, true, hooks);
    if contentCopy != null {
      CopyParts(contentCopy, contentNode, contentNode.tree);
    }
    ValidIsReady(root);
    DeleteTree(root, hooks);
    m := new Message(id, kind, subType, contentCopy);
  }

  /** What a copy holds: content that is too deep is lost. */
  function Copied(m: Letter): Letter {
    if m.content.Some? && DepthOK(m.content.value, 0) then m else m.(content := None)
  }

  /** Content is lost: no copy of a message with content nested past the limit has any. */
  lemma ContentIsLost(m: Letter)
    requires m.content == Some(Deep(10001))
    ensures Copied(m) == m.(content := None) != m
  {
    hide Deep, DepthOK;
    DeepIsTooDeep(10001, 0);
  }

  /** A message through the wire, as toJSONString sends it and fromJSONString receives it: what arrives
      is the message that was sent, that message without its content when memory ran out, or nothing.
      Unless memory runs out a text that fits an int arrives exactly when the content is an object nesting
      at most 999 deep, and then only the new message's content stays allocated. */
  method SendAndReceive(m: Message, hooks: Allocator) returns (received: Message?)
    requires m.Valid(hooks) && (m.content != null ==> Printable(m.content.tree))
    modifies hooks
    ensures m.Valid(hooks) && (old(hooks.failed) ==> hooks.failed) && old(hooks.live) <= hooks.live
    ensures received != null ==>
      fresh(received) && received.Valid(hooks) && fresh(Whole(received.content))
      && received.Value().(content := None) == m.Value().(content := None)
      && (received.Value() == m.Value() || (hooks.failed && received.content == null))
      && (!hooks.failed ==> hooks.live == old(hooks.live) + Whole(received.content))
    ensures received != null ==> Arrives(m.Value())
    ensures !hooks.failed && |Send(m.Value())| + 2 <= INT_MAX ==> (received != null <==> Arrives(m.Value()))
  {
    hide Node.Valid, Receive, Send, DepthOK, Arrives, NulFree, IsText, CString, Printable, IsInt;
    WireRoundTrip(m.Value());
    var text, lost, unprinted := m.ToJSONString(hooks);
    if text == None {
      return null;
    }
    if Receive(text.value).Some? {
      ReceivedMessages(text.value);
    }
    var jsonString := NewText(text.value);
    received := FromJSONString(jsonString, hooks);
  }
}
