/** cJSON nodes on the heap, the allocator they come from, and deletion. */
module Nodes {
  import opened Bytes
  import opened Json

  datatype Kind = Invalid | IsFalse | IsTrue | IsNull | IsNumber | IsString | IsArray | IsObject

  /** A C string held by a node. */
  ghost predicate IsText(b: array<byte>)
    reads b
  {
    exists k :: 0 <= k < b.Length && b[k] == NUL
  }

  function TextOf(b: array<byte>): Bytes
    reads b
  {
    CString(b[..])
  }

  class Node {
    var kind: Kind
    var valuestring: array?<byte>
    var valueint: int
    var valuedouble: real
    var key: array?<byte>
    var next: Node?
    var prev: Node?
    var child: Node?

    /** The nodes of the child list, in order. */
    ghost var children: seq<Node>
    /** All that is freed with this node, besides the node: its strings and the nodes below it. */
    ghost var owned: set<object>
    /** What the node denotes. */
    ghost var tree: J

    /** Owns what it should: its strings, and child nodes linked by `next`. Nothing is said about
        the node's own links, nor about `prev` or the kind. */
    ghost predicate Ready()
      reads this`valuestring, this`key, this`child, this`children, this`owned, owned
      decreases owned, 0
    {
      this !in owned
      && (valuestring != null ==> valuestring in owned && IsText(valuestring))
      && (key != null ==> key in owned && IsText(key) && key != valuestring)
      && (forall c | c in children ::
            c in owned && c !in c.owned && c.owned <= owned - {c}
            && valuestring !in c.owned && key !in c.owned && c.Valid())
      && Apart(children)
      && Linked(child, children)
      && owned == Strings() + Footprint(children)
    }

    /** All that is freed with this node. */
    ghost function Share(): set<object>
      reads this`owned
    {
      {this} + owned
    }

    ghost function Strings(): set<object>
      reads this`valuestring, this`key
    {
      (if valuestring == null then {} else {valuestring}) + (if key == null then {} else {key})
    }

    /** A whole tree: in addition the child list is a ring through `prev`, and the kind fits. */
    ghost predicate Valid()
      reads this`kind, this`valuestring, this`valueint, this`valuedouble, this`key, this`child
      reads this`children, this`owned, this`tree, owned
      decreases owned, 1
    {
      Ready() && Ring(children)
      && (kind == IsObject ==> forall c | c in children :: c.key != null && c.key in c.owned)
      && Fits()
    }

    /** What the kind of a node says about its fields and what it denotes. */
    ghost predicate Fits()
      requires kind == IsObject ==> forall c | c in children :: c.key != null
      reads this`kind, this`valuestring, this`valueint, this`valuedouble, this`children, this`tree, valuestring
      reads children`tree, children`key, if kind == IsObject then set c | c in children :: c.key else {}
    {
      (valuestring == null <==> kind != IsString)
      && match kind
         case Invalid => false
         case IsNull => tree == Null && children == []
         case IsFalse => tree == False && children == []
         case IsTrue => tree == True && children == []
         case IsNumber => tree == Num(valuedouble) && valueint == ValueInt(valuedouble) && children == []
         case IsString => tree == Str(TextOf(valuestring)) && children == []
         case IsArray => tree == Arr(Trees(children))
         case IsObject => tree == Obj(Members(children))
    }

    /** A node as it is just after allocation. */
    ghost predicate Blank()
      reads this
    {
      kind == Invalid && valuestring == null && key == null && child == null && next == null && prev == null
      && children == [] && owned == {} && valueint == 0 && valuedouble == 0.0
    }

    constructor ()
      ensures Blank()
    {
      kind, valuestring, valueint, valuedouble, key := Invalid, null, 0, 0.0, null;
      next, prev, child := null, null, null;
      children, owned := [], {};
    }
  }

  ghost function Trees(nodes: seq<Node>): (r: seq<J>)
    reads nodes`tree
    ensures |r| == |nodes| && forall i :: 0 <= i < |nodes| ==> r[i] == nodes[i].tree
  {
    if nodes == [] then [] else [nodes[0].tree] + Trees(nodes[1..])
  }

  /** Name and value of object members; used only where every node has a key. */
  ghost function Members(nodes: seq<Node>): (r: seq<Member>)
    requires forall n | n in nodes :: n.key != null
    reads nodes`tree, nodes`key, set n | n in nodes :: n.key
    ensures |r| == |nodes| && forall i :: 0 <= i < |nodes| ==> r[i] == Member(TextOf(nodes[i].key), nodes[i].tree)
  {
    if nodes == [] then []
    else
      assert forall n | n in nodes[1..] :: n in nodes;
      [Member(TextOf(nodes[0].key), nodes[0].tree)] + Members(nodes[1..])
  }

  /** Everything a list of nodes stands for on the heap. */
  ghost function Footprint(nodes: seq<Node>): set<object>
    reads nodes`owned
  {
    set n, o | n in nodes && o in n.Share() :: o
  }

  ghost predicate Apart(nodes: seq<Node>)
    reads nodes`owned
  {
    forall i, k :: 0 <= i < k < |nodes| ==> nodes[i].Share() !! nodes[k].Share()
  }

  /** `first` starts the list `nodes`, which ends with a null `next`. */
  ghost predicate Linked(first: Node?, nodes: seq<Node>)
    reads nodes`next
  {
    first == (if nodes == [] then null else nodes[0])
    && forall i {:trigger nodes[i].next} :: 0 <= i < |nodes| ==> nodes[i].next == After(nodes, i)
  }

  function After(nodes: seq<Node>, i: nat): Node?
    requires i < |nodes|
  {
    if i + 1 < |nodes| then nodes[i + 1] else null
  }

  function Before(nodes: seq<Node>, i: nat): Node
    requires i < |nodes|
  {
    nodes[Pred(i, |nodes|)]
  }

  /** The position before `i`, going round. */
  function Pred(i: nat, n: nat): (k: nat)
    requires i < n
    ensures k < n
  {
    if i == 0 then n - 1 else i - 1
  }

  /** `prev` undoes `next`, and the first node's `prev` is the last node. */
  ghost predicate Ring(nodes: seq<Node>)
    reads nodes`prev
  {
    forall i {:trigger nodes[i].prev} :: 0 <= i < |nodes| ==> nodes[i].prev == Before(nodes, i)
  }

  // ---- allocation ----

  /** The allocation hooks: what is allocated and not yet freed, and whether a request has failed. */
  class Allocator {
    ghost var live: set<object>
    ghost var failed: bool

    constructor ()
      ensures live == {} && !failed
    {
      live, failed := {}, false;
    }

    /** cJSON_New_Item. */
    method NewItem() returns (n: Node?)
      modifies this
      ensures n == null ==> live == old(live) && failed
      ensures n != null ==> fresh(n) && n.Blank() && live == old(live) + {n} && failed == old(failed)
    {
      if * {
        n := null;
        failed := true;
      } else {
        n := new Node();
        live := live + {n};
      }
    }

    method NewBytes(length: nat) returns (b: array?<byte>)
      modifies this
      ensures b == null ==> live == old(live) && failed
      ensures b != null ==> fresh(b) && b.Length == length && live == old(live) + {b} && failed == old(failed)
    {
      if * {
        b := null;
        failed := true;
      } else {
        b := new byte[length];
        live := live + {b};
      }
    }

    /** Only what is allocated can be freed, so nothing is freed twice. */
    method Free(ghost o: object)
      requires o in live
      modifies this`live
      ensures live == old(live) - {o}
    {
      live := live - {o};
    }
  }

  /** cJSON_strdup. */
  method Strdup(text: array?<byte>, hooks: Allocator) returns (copy: array?<byte>)
    requires text != null ==> IsText(text)
    modifies hooks
    ensures old(hooks.failed) ==> hooks.failed
    ensures copy == null ==> hooks.live == old(hooks.live) && (text == null || hooks.failed)
    ensures copy != null ==>
      text != null && fresh(copy) && hooks.live == old(hooks.live) + {copy} && IsText(copy)
        && TextOf(copy) == TextOf(text)
  {
    if text == null {
      return null;
    }
    CStringBytes(text[..]);
    var length := |TextOf(text)| + 1;
    copy := hooks.NewBytes(length);
    if copy != null {
      forall i | 0 <= i < length {
        copy[i] := text[i];
      }
      assert copy[..length - 1] == TextOf(text);
      CStringAt(copy[..], length - 1);
    }
  }

  /** A C string of the program's own. */
  method NewText(text: Bytes) returns (b: array<byte>)
    requires NulFree(text)
    ensures fresh(b) && IsText(b) && TextOf(b) == text
  {
    b := new byte[|text| + 1](i requires 0 <= i <= |text| => if i < |text| then text[i] else NUL);
    assert b[..|text|] == text;
    CStringAt(b[..], |text|);
  }

  lemma FootprintOfPrefix(nodes: seq<Node>, k: nat)
    requires k < |nodes|
    ensures Footprint(nodes[..k + 1]) == Footprint(nodes[..k]) + nodes[k].Share()
  {
    assert forall n :: n in nodes[..k + 1] <==> n in nodes[..k] || n == nodes[k];
    assert forall o :: o in Footprint(nodes[..k + 1]) <==> o in Footprint(nodes[..k]) || o in nodes[k].Share();
  }

  /** A list of separate nodes, each with what it owns, from `item` on. */
  ghost predicate Forest(item: Node?, nodes: seq<Node>)
    reads nodes, Footprint(nodes)
  {
    assert forall n | n in nodes :: n.Share() <= Footprint(nodes);
    Linked(item, nodes) && Apart(nodes) && forall n | n in nodes :: n.Ready()
  }

  lemma ForestAt(item: Node?, nodes: seq<Node>, k: nat)
    requires Forest(item, nodes) && k <= |nodes|
    ensures k == 0 ==> item == if nodes == [] then null else nodes[0]
    ensures k < |nodes| ==>
      nodes[k].Ready() && nodes[k].next == (if k + 1 < |nodes| then nodes[k + 1] else null)
      && nodes[k].Share() <= Footprint(nodes) - Footprint(nodes[..k])
  {
  }

  /** cJSON_Delete: frees a list of nodes with everything they own, each object once. (The source
      also clears the string pointers of a node it is about to free.) */
  method Delete(item: Node?, ghost nodes: seq<Node>, ghost all: set<object>, a: Allocator)
    requires Forest(item, nodes)
    requires all == Footprint(nodes) <= a.live && a !in all
    modifies a`live
    ensures a.live == old(a.live) - all
    decreases all
  {
    hide Forest, Node.Ready, Footprint, Apart, Linked;
    ForestAt(item, nodes, 0);
    FootprintOfNone(nodes);
    var current := item;
    ghost var k := 0;
    ghost var freed: set<object> := {};
    while current != null
      invariant 0 <= k <= |nodes|
      invariant current == if k < |nodes| then nodes[k] else null
      invariant freed == Footprint(nodes[..k]) && a.live == old(a.live) - freed
      invariant Forest(item, nodes) && all == Footprint(nodes)
      decreases |nodes| - k
    {
      ghost var here := current.Share();
      ForestAt(item, nodes, k);
      FootprintOfPrefix(nodes, k);
      StillLive(old(a.live), all, freed, here);
      var next := current.next;
      DeleteOne(current, all, a);
      current := next;
      freed := freed + here;
      k := k + 1;
    }
  }

  lemma StillLive<T>(live: set<T>, all: set<T>, freed: set<T>, here: set<T>)
    requires all <= live && here <= all - freed
    ensures here <= live - freed && live - freed - here == live - (freed + here)
  {
  }

  lemma FootprintOfNone(nodes: seq<Node>)
    ensures Footprint(nodes[..0]) == {} && nodes[..|nodes|] == nodes
  {
  }

  /** One turn of the loop of cJSON_Delete. */
  method DeleteOne(item: Node, ghost all: set<object>, a: Allocator)
    requires item.Ready()
    requires item.Share() <= a.live && a !in item.owned && a != item as object
    requires item.Share() <= all
    modifies a`live
    ensures a.live == old(a.live) - item.Share()
    decreases all, 0
  {
    hide Node.Ready, Footprint, Apart, Linked;
    OwnedParts(item);
    if item.child != null {
      Delete(item.child, item.children, Footprint(item.children), a);
    }
    if item.valuestring != null {
      a.Free(item.valuestring);
    }
    if item.key != null {
      a.Free(item.key);
    }
    a.Free(item);
  }

  /** A ready node owns its strings and its child list, and nothing twice. */
  lemma OwnedParts(n: Node)
    requires n.Ready()
    ensures n !in n.owned && n.owned == n.Strings() + Footprint(n.children)
    ensures n.valuestring !in Footprint(n.children) && n.key !in Footprint(n.children)
    ensures n.key != null ==> n.key != n.valuestring
    ensures Forest(n.child, n.children)
    ensures n.child == null ==> Footprint(n.children) == {}
  {
  }

  /** A whole tree is ready, and so are its parts. */
  lemma ValidParts(n: Node)
    requires n.Valid()
    ensures n.Ready() && Ring(n.children) && Forest(n.child, n.children) && Linked(n.child, n.children)
      && Apart(n.children)
    ensures forall c | c in n.children :: c.Valid() && c in n.owned && c !in c.owned && c.owned <= n.owned - {c}
    ensures n !in n.owned
  {
    assert n.Ready();
  }

  /** What the kind of a node says about its tree. */
  lemma ValidTree(n: Node)
    requires n.Valid()
    ensures match n.kind
      case Invalid => false
      case IsNull => n.tree == Null
      case IsFalse => n.tree == False
      case IsTrue => n.tree == True
      case IsNumber => n.tree == Num(n.valuedouble) && n.valueint == ValueInt(n.valuedouble)
      case IsString => n.valuestring != null && n.valuestring in n.owned && IsText(n.valuestring)
        && n.tree == Str(TextOf(n.valuestring))
      case IsArray => n.tree == Arr(Trees(n.children))
      case IsObject => (forall c | c in n.children :: c.key != null) && n.tree == Obj(Members(n.children))
    ensures n.kind != IsArray && n.kind != IsObject ==> n.children == []
    ensures n.kind != IsString ==> n.valuestring == null
  {
    assert n.Ready();
  }

  /** The `k`-th child of a tree is a tree, below it, and one of the values the tree is made of. */
  lemma ChildParts(n: Node, k: nat)
    requires n.Valid() && k < |n.children|
    ensures var c := n.children[k];
      c.Valid() && c.Share() <= n.owned && c.owned < n.owned
    ensures n.children[k].next == if k + 1 < |n.children| then n.children[k + 1] else null
    ensures n.kind == IsArray || n.kind == IsObject
    ensures n.kind == IsArray ==> IsElement(n.tree, k, |n.children|, n.children[k].tree)
    ensures n.kind == IsObject ==>
      HasKey(n.children[k])
      && IsMember(n.tree, k, |n.children|, TextOf(n.children[k].key), n.children[k].tree)
  {
    hide Node.Ready, Node.Valid, Footprint, Forest, Linked, Apart, Ring;
    var c := n.children[k];
    assert c in n.children;
    ChildIsBelow(n, c);
    ValidTree(n);
    ValidParts(n);
    ForestAt(n.child, n.children, k);
    if n.kind == IsObject {
      ChildIsText(c);
    }
  }

  lemma ChildIsText(c: Node)
    requires c.Valid() && c.key != null
    ensures HasKey(c)
  {
    assert c.Ready();
  }

  lemma ChildIsBelow(n: Node, c: Node)
    requires n.Valid() && c in n.children
    ensures c.Valid() && c.Share() <= n.owned && c.owned < n.owned
  {
    ValidParts(n);
  }

  ghost predicate HasKey(c: Node)
    reads c, c.owned
  {
    c.key != null && c.key in c.owned && IsText(c.key)
  }

  predicate IsElement(j: J, k: nat, count: nat, x: J) {
    j.Arr? && |j.elements| == count && k < count && j.elements[k] == x
  }

  predicate IsMember(j: J, k: nat, count: nat, key: Bytes, x: J) {
    j.Obj? && |j.members| == count && k < count && j.members[k] == Member(key, x)
  }
}
