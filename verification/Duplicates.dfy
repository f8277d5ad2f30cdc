/** Deep and shallow copies of trees. */
module Duplicates {
  import opened Bytes
  import opened Json
  import opened Nodes
  import opened TreeEdits
  import opened Chains

  /** No node at depth CIRCULAR_LIMIT or more has a child, the root being at `depth`. */
  predicate DepthOK(j: J, depth: nat) {
    match j
    case Arr(xs) => xs == [] || (depth < CIRCULAR_LIMIT && forall x | x in xs :: DepthOK(x, depth + 1))
    case Obj(ms) => ms == [] || (depth < CIRCULAR_LIMIT && forall m | m in ms :: DepthOK(m.value, depth + 1))
    case _ => true
  }

  /** What a deep copy gives when there is memory. */
  function CopyOf(j: J): Option<J> {
    if DepthOK(j, 0) then Some(j) else None
  }

  /** `n` arrays, each the only element of the one around it. */
  function Deep(n: nat): J {
    if n == 0 then Null else Arr([Deep(n - 1)])
  }

  /** There are trees that cannot be copied: exactly the nests that reach past the limit. */
  lemma {:induction false} DeepIsTooDeep(n: nat, depth: nat)
    requires depth <= 10000
    ensures DepthOK(Deep(n), depth) <==> n == 0 || n + depth <= 10000
  {
    if n > 0 {
      var inner := Deep(n - 1);
      assert inner in [inner] && forall x :: x in [inner] ==> x == inner;
      if depth < CIRCULAR_LIMIT {
        DeepIsTooDeep(n - 1, depth + 1);
      }
    }
  }

  /** How many levels of nodes are below the root. */
  function Height(j: J): nat {
    match j
    case Arr(xs) => HeightOfElements(xs)
    case Obj(ms) => HeightOfMembers(ms)
    case _ => 0
  }

  function HeightOfElements(xs: seq<J>): nat {
    if xs == [] then 0 else Max(1 + Height(xs[0]), HeightOfElements(xs[1..]))
  }

  function HeightOfMembers(ms: seq<Member>): nat {
    if ms == [] then 0 else Max(1 + Height(ms[0].value), HeightOfMembers(ms[1..]))
  }

  function Max(a: nat, b: nat): nat {
    if a < b then b else a
  }

  /** A tree can be copied exactly if no node is more than 10000 levels below the root. */
  lemma {:induction false} CopyableExactly(j: J, depth: nat)
    requires depth <= 10000
    ensures DepthOK(j, depth) <==> depth + Height(j) <= 10000
    decreases j, 0
  {
    match j
    case Arr(xs) => ElementsCopyable(xs, depth);
    case Obj(ms) => MembersCopyable(ms, depth);
    case _ =>
  }

  lemma {:induction false} ElementsCopyable(xs: seq<J>, depth: nat)
    requires depth <= 10000
    ensures depth + HeightOfElements(xs) <= 10000
      <==> xs == [] || (depth < 10000 && forall x | x in xs :: DepthOK(x, depth + 1))
    decreases xs, 1
  {
    hide DepthOK, Height;
    if xs != [] && depth < 10000 {
      CopyableExactly(xs[0], depth + 1);
      ElementsCopyable(xs[1..], depth);
      ElementsApart(xs, depth + 1);
    }
  }

  lemma ElementsApart(xs: seq<J>, depth: nat)
    requires xs != []
    ensures (forall x | x in xs :: DepthOK(x, depth))
      <==> DepthOK(xs[0], depth) && forall x | x in xs[1..] :: DepthOK(x, depth)
  {
    hide DepthOK;
    assert xs == [xs[0]] + xs[1..];
  }

  lemma {:induction false} MembersCopyable(ms: seq<Member>, depth: nat)
    requires depth <= 10000
    ensures depth + HeightOfMembers(ms) <= 10000
      <==> ms == [] || (depth < 10000 && forall m | m in ms :: DepthOK(m.value, depth + 1))
    decreases ms, 1
  {
    hide DepthOK, Height;
    if ms != [] && depth < 10000 {
      assert forall m :: m in ms <==> m == ms[0] || m in ms[1..];
      CopyableExactly(ms[0].value, depth + 1);
      MembersCopyable(ms[1..], depth);
    }
  }

  /** The tree without its children. */
  function Shallow(j: J): J {
    match j
    case Arr(_) => Arr([])
    case Obj(_) => Obj([])
    case _ => j
  }

  /** What a copy with those children is to be. */
  ghost predicate IsCopy(copy: Node, item: Node, tree: J)
    reads copy, copy.key, copy.owned, item`key, item.key, item`kind, item`valueint, item`valuedouble
  {
    copy.Valid() && copy.tree == tree && copy.next == null && copy.prev == null
    && copy.kind == item.kind && copy.valueint == item.valueint && copy.valuedouble == item.valuedouble
    && (copy.key == null <==> item.key == null) && NameOf(copy) == NameOf(item)
  }

  /** The copied node has the source's own fields; its children have not been looked at. */
  ghost predicate Fields(copy: Node, item: Node)
    reads copy`kind, copy`valueint, copy`valuedouble, copy`valuestring, copy`key, copy`next, copy`prev
    reads copy`children, copy`owned, copy.valuestring, copy.key
    reads item`kind, item`valueint, item`valuedouble, item`valuestring, item`key, item.valuestring, item.key
  {
    copy.kind == item.kind && copy.valueint == item.valueint && copy.valuedouble == item.valuedouble
    && (copy.valuestring == null <==> item.valuestring == null) && (copy.key == null <==> item.key == null)
    && (copy.valuestring != null ==> IsText(copy.valuestring) && TextOf(copy.valuestring) == TextOf(item.valuestring))
    && (copy.key != null ==> IsText(copy.key) && copy.key != copy.valuestring && TextOf(copy.key) == TextOf(item.key))
    && copy.next == null && copy.prev == null && copy.children == [] && copy.owned == copy.Strings()
  }

  lemma ItemStrings(item: Node)
    requires item.Valid()
    ensures item.valuestring != null ==> IsText(item.valuestring) && item.valuestring in item.owned
    ensures item.key != null ==> IsText(item.key) && item.key in item.owned
    ensures item !in item.owned
  {
    assert item.Ready();
  }

  lemma PlainIsReady(copy: Node)
    requires copy.child == null && copy.children == [] && copy.owned == copy.Strings()
    requires copy.valuestring != null ==> IsText(copy.valuestring)
    requires copy.key != null ==> IsText(copy.key) && copy.key != copy.valuestring
    ensures copy.Ready() && copy !in copy.owned
  {
    NoFootprint();
  }

  /** A new node gets a copy of a string, or is freed. */
  method CopyValuestring(copy: Node, item: Node, hooks: Allocator) returns (ok: bool)
    requires copy.child == null && copy.children == [] && copy.owned == {} && copy.key == null
      && copy.valuestring == null
    requires copy.next == null && copy in hooks.live && (item.valuestring != null ==> IsText(item.valuestring))
    modifies copy`valuestring, copy`owned, hooks
    ensures old(hooks.failed) ==> hooks.failed
    ensures ok ==>
      (copy.valuestring == null <==> item.valuestring == null) && copy.owned == copy.Strings() && fresh(copy.owned)
      && hooks.live == old(hooks.live) + copy.owned
    ensures ok && copy.valuestring != null ==>
      IsText(copy.valuestring) && TextOf(copy.valuestring) == TextOf(item.valuestring)
    ensures !ok ==> hooks.live == old(hooks.live) - {copy} && hooks.failed
  {
    hide Node.Ready, CString, IsText;
    if item.valuestring != null {
      copy.valuestring := Strdup(item.valuestring, hooks);
      if copy.valuestring == null {
        PlainIsReady(copy);
        DeleteTree(copy, hooks);
        return false;
      }
      copy.owned := {copy.valuestring};
    }
    return true;
  }

  method CopyKey(copy: Node, item: Node, hooks: Allocator) returns (ok: bool)
    requires copy.child == null && copy.children == [] && copy.key == null && copy.owned == copy.Strings()
    requires copy.next == null && copy.Share() <= hooks.live && hooks !in copy.Share()
    requires (item.key != null ==> IsText(item.key)) && (copy.valuestring != null ==> IsText(copy.valuestring))
    modifies copy`key, copy`owned, hooks
    ensures old(hooks.failed) ==> hooks.failed
    ensures ok ==>
      (copy.key == null <==> item.key == null) && copy.owned == copy.Strings() && fresh(copy.owned - old(copy.owned))
      && old(copy.owned) <= copy.owned && hooks.live == old(hooks.live) + (copy.owned - old(copy.owned))
      && (copy.key != null ==> copy.key != copy.valuestring)
    ensures ok && copy.key != null ==> IsText(copy.key) && TextOf(copy.key) == TextOf(item.key)
    ensures !ok ==> hooks.live == old(hooks.live) - old(copy.Share()) && hooks.failed
  {
    hide Node.Ready, CString, IsText;
    if item.key != null {
      copy.key := Strdup(item.key, hooks);
      if copy.key == null {
        PlainIsReady(copy);
        DeleteTree(copy, hooks);
        return false;
      }
      copy.owned := copy.owned + {copy.key};
    }
    return true;
  }

  method CopyScalars(copy: Node, item: Node)
    modifies copy`kind, copy`valueint, copy`valuedouble
    ensures copy.kind == old(item.kind) && copy.valueint == old(item.valueint)
      && copy.valuedouble == old(item.valuedouble)
  {
    copy.kind := item.kind;
    copy.valueint := item.valueint;
    copy.valuedouble := item.valuedouble;
  }

  lemma MakeFields(copy: Node, item: Node)
    requires copy.kind == item.kind && copy.valueint == item.valueint && copy.valuedouble == item.valuedouble
    requires (copy.valuestring == null <==> item.valuestring == null) && (copy.key == null <==> item.key == null)
    requires copy.valuestring != null ==>
      IsText(copy.valuestring) && TextOf(copy.valuestring) == TextOf(item.valuestring)
    requires copy.key != null ==>
      IsText(copy.key) && copy.key != copy.valuestring
      && TextOf(copy.key) == TextOf(item.key)
    requires copy.next == null && copy.prev == null && copy.children == [] && copy.owned == copy.Strings()
    ensures Fields(copy, item)
  {
  }

  /** The part of cJSON_Duplicate_rec that copies one node. */
  method CopyNode(item: Node, hooks: Allocator) returns (copy: Node?)
    requires item.Valid() && hooks !in item.Share()
    modifies hooks
    ensures old(hooks.failed) ==> hooks.failed
    ensures copy == null ==> hooks.live == old(hooks.live) && hooks.failed
    ensures copy != null ==>
      fresh(copy.Share()) && Fields(copy, item) && copy.child == null && hooks.live == old(hooks.live) + copy.Share()
  {
    hide Node.Valid, Node.Ready, CString, IsText, Fields, TextOf;
    ItemStrings(item);
    copy := hooks.NewItem();
    if copy == null {
      return;
    }
    CopyScalars(copy, item);
    var ok := CopyValuestring(copy, item, hooks);
    if !ok {
      return null;
    }
    ok := CopyKey(copy, item, hooks);
    if !ok {
      return null;
    }
    MakeFields(copy, item);
  }

  /** The nodes stand for the same trees, under the same names, as the first children of `item`. */
  ghost predicate Same(nodes: seq<Node>, item: Node)
    reads nodes`tree, nodes`key, set n | n in nodes :: n.key
    reads item`children, item.children`tree, item.children`key, set n | n in item.children :: n.key
  {
    |nodes| <= |item.children|
    && forall i {:trigger nodes[i]} :: 0 <= i < |nodes| ==>
         nodes[i].tree == item.children[i].tree && NameOf(nodes[i]) == NameOf(item.children[i])
         && (nodes[i].key == null <==> item.children[i].key == null)
  }

  lemma SameGrows(nodes: seq<Node>, copy: Node, item: Node)
    requires Same(nodes, item) && |nodes| < |item.children| && copy.tree == item.children[|nodes|].tree
    requires NameOf(copy) == NameOf(item.children[|nodes|])
    requires copy.key == null <==> item.children[|nodes|].key == null
    ensures Same(nodes + [copy], item)
  {
  }

  /** Half way: `copy` has the fields of `item` and copies of its first children. */
  ghost predicate Copying(copy: Node, last: Node?, nodes: seq<Node>, item: Node)
    reads copy, copy.valuestring, copy.key, nodes, Below(nodes), set n | n in nodes :: n.key
    reads item, item.valuestring, item.key, item.children, set n | n in item.children :: n.key
  {
    Fields(copy, item) && Same(nodes, item)
    && Chain(copy.child, last, nodes, item.kind) && copy !in Footprint(nodes) && copy.owned !! Footprint(nodes)
  }

  lemma CopyingParts(copy: Node, last: Node?, nodes: seq<Node>, item: Node)
    requires Copying(copy, last, nodes, item)
    ensures Fields(copy, item) && Same(nodes, item)
    ensures Chain(copy.child, last, nodes, item.kind) && copy !in Footprint(nodes) && copy.owned !! Footprint(nodes)
    ensures copy !in copy.owned && forall o | o in Footprint(nodes) :: allocated(o)
    ensures (last != null ==> last in nodes) && (last == null <==> copy.child == null)
    ensures Footprint(nodes) == (set n | n in nodes) + Below(nodes)
  {
    ChainIsAllocated(copy.child, last, nodes, item.kind);
    WholesAreFlat(nodes, item.kind);
  }

  lemma CopyParts(copy: Node, item: Node, tree: J)
    requires IsCopy(copy, item, tree)
    ensures copy !in copy.owned && copy.Valid() && copy.next == null && (copy.key == null <==> item.key == null)
    ensures copy.tree == tree && NameOf(copy) == NameOf(item)
  {
    ValidParts(copy);
  }

  lemma MemberHasName(item: Node, k: nat)
    requires item.Valid() && k < |item.children|
    ensures item.kind == IsObject ==> item.children[k].key != null
  {
    ValidTree(item);
  }

  /** The stores that link the copy of a child. */
  method LinkChild(copy: Node, last: Node?, newchild: Node, ghost nodes: seq<Node>, ghost kind: Kind)
    requires Chain(copy.child, last, nodes, kind) && (last == null <==> copy.child == null)
    requires newchild.Valid() && newchild.next == null && (kind == IsObject ==> newchild.key != null)
    requires newchild.Share() !! Footprint(nodes) && copy !in Footprint(nodes) + newchild.Share()
    modifies copy`child, One(last)`next, newchild`prev
    ensures Chain(copy.child, newchild, nodes + [newchild], kind)
    ensures Footprint(nodes + [newchild]) == old(Footprint(nodes)) + newchild.Share()
  {
    hide Node.Valid, Node.Ready, Chain, Below, Footprint, Attached;
    ChainIsAllocated(copy.child, last, nodes, kind);
    ValidParts(newchild);
    var first := copy.child;
    Link(first, last, nodes, kind, newchild);
    if last == null {
      copy.child := newchild;
    }
    AttachedGrows(copy.child, nodes, newchild, kind);
  }

  /** Linking the copy of a child. */
  method LinkCopy(copy: Node, last: Node?, newchild: Node, ghost nodes: seq<Node>, item: Node)
    requires Copying(copy, last, nodes, item) && |nodes| < |item.children| && item.Valid()
    requires IsCopy(newchild, item.children[|nodes|], item.children[|nodes|].tree)
    requires newchild.Share() !! Footprint(nodes) + copy.Share() + item.Share()
      && item.Share() !! Footprint(nodes) + copy.Share()
    modifies copy`child, One(last)`next, newchild`prev
    ensures Copying(copy, newchild, nodes + [newchild], item)
    ensures Footprint(nodes + [newchild]) == old(Footprint(nodes)) + newchild.Share()
  {
    hide Node.Valid, Node.Ready, IsCopy, Chain, Below, Footprint, Same, Fields, CString, NameOf, Copying;
    CopyingParts(copy, last, nodes, item);
    CopyParts(newchild, item.children[|nodes|], item.children[|nodes|].tree);
    MemberHasName(item, |nodes|);
    SameGrows(nodes, newchild, item);
    ghost var kind := item.kind;
    LinkChild(copy, last, newchild, nodes, kind);
    assert Fields(copy, item);
    assert Same(nodes + [newchild], item);
    MakeCopying(copy, newchild, nodes + [newchild], item);
  }

  lemma MakeCopying(copy: Node, last: Node?, nodes: seq<Node>, item: Node)
    requires Fields(copy, item) && Same(nodes, item)
    requires Chain(copy.child, last, nodes, item.kind) && copy !in Footprint(nodes) && copy.owned !! Footprint(nodes)
    ensures Copying(copy, last, nodes, item)
  {
  }

  /** Copies of all children make the tree of the source. */
  lemma SameTree(nodes: seq<Node>, item: Node)
    requires item.Valid() && IsContainer(item.kind) && Same(nodes, item) && |nodes| == |item.children|
    ensures Suit(nodes, item.kind) && TreeOf(item.kind, nodes) == item.tree
  {
    hide Node.Valid, CString;
    FamilyOf(item);
    FamilySuits(item, item.children);
    TreeIsEntries(item.kind, item.children);
    forall n | n in nodes ensures item.kind == IsObject ==> n.key != null {
      var i :| 0 <= i < |nodes| && nodes[i] == n;
      assert item.children[i] in item.children;
    }
    SameEntries(item.kind, nodes, Entries(item.tree));
  }

  /** The fields make a leaf, or a container without children. */
  lemma ShallowIsValid(copy: Node, item: Node)
    requires item.Valid() && Fields(copy, item) && copy.child == null && copy.tree == Shallow(item.tree)
    ensures IsCopy(copy, item, Shallow(item.tree)) && copy !in copy.owned
  {
    hide Node.Valid, Node.Ready, IsText, CString;
    ValidTree(item);
    PlainIsReady(copy);
    if IsContainer(item.kind) {
      EmptyIsValid(copy);
    } else if item.kind == IsString {
      StringIsValid(copy);
    } else {
      LeafIsValid(copy);
    }
    MakeCopy(copy, item, Shallow(item.tree));
  }

  lemma LeafIsShallow(item: Node)
    requires item.Valid() && !IsContainer(item.kind)
    ensures item.children == [] && Shallow(item.tree) == item.tree
  {
    ValidTree(item);
  }

  /** The stores that finish a copy: the ring is closed and, in the model, the children are adopted. */
  method FinishCopy(copy: Node, item: Node, last: Node?, ghost nodes: seq<Node>)
    requires Copying(copy, last, nodes, item) && |nodes| == |item.children| && item.Valid()
    requires item.Share() !! Footprint(nodes) + copy.Share()
    modifies copy`children, copy`owned, copy`tree, One(copy.child)`prev
    ensures IsCopy(copy, item, item.tree) && copy.owned == old(copy.owned) + old(Footprint(nodes))
  {
    hide Node.Valid, Node.Ready, IsCopy, Chain, Below, Footprint, Same, Fields, CString, Copying, Wholes, Linked;
    hide Ring, Suit;
    hide Assembled, Family, TreeOf;
    CopyingParts(copy, last, nodes, item);
    FieldParts(copy, item);
    if !IsContainer(item.kind) {
      LeafIsShallow(item);
      ChainLinks(copy.child, last, nodes, item.kind);
      NoFootprint();
      copy.tree := item.tree;
      ShallowIsValid(copy, item);
      return;
    }
    SameTree(nodes, item);
    ChainHead(copy.child, last, nodes, item.kind);
    CloseRing(copy.child, last, nodes, item.kind);
    WholesAreFamily(copy, nodes);
    MakeAssembled(copy, nodes);
    Adopt(copy, nodes);
    MakeCopy(copy, item, item.tree);
  }

  lemma MakeCopy(copy: Node, item: Node, tree: J)
    requires copy.Valid() && copy.tree == tree && copy.next == null && copy.prev == null
    requires copy.kind == item.kind && copy.valueint == item.valueint && copy.valuedouble == item.valuedouble
    requires (copy.key == null <==> item.key == null) && NameOf(copy) == NameOf(item)
    ensures IsCopy(copy, item, tree)
  {
  }

  lemma FieldParts(copy: Node, item: Node)
    requires item.Valid() && Fields(copy, item)
    ensures copy.kind == item.kind && copy.valueint == item.valueint && copy.valuedouble == item.valuedouble
    ensures copy.owned == copy.Strings() && copy.children == [] && copy.next == null && copy.prev == null
    ensures IsContainer(item.kind) ==> copy.valuestring == null
    ensures copy.key != null ==> IsText(copy.key) && copy.key in copy.owned && copy.key != copy.valuestring
    ensures copy.valuestring != null ==> IsText(copy.valuestring)
    ensures (copy.key == null <==> item.key == null) && NameOf(copy) == NameOf(item)
  {
    ValidTree(item);
  }

  /** The failure exit of cJSON_Duplicate_rec: the copies made so far go with the node. */
  method Abandon(copy: Node, item: Node, last: Node?, ghost nodes: seq<Node>, hooks: Allocator)
    requires Copying(copy, last, nodes, item) && copy.Share() + Footprint(nodes) <= hooks.live
    requires hooks !in copy.Share() + Footprint(nodes)
    modifies copy`children, copy`owned, hooks`live
    ensures hooks.live == old(hooks.live) - old(copy.Share()) - old(Footprint(nodes))
  {
    hide Node.Valid, Node.Ready, Chain, Below, Footprint, Same, CString, Copying, Wholes, Linked;
    CopyingParts(copy, last, nodes, item);
    ChainLinks(copy.child, last, nodes, item.kind);
    copy.children := nodes;
    copy.owned := copy.owned + Footprint(nodes);
    PartIsReady(copy, last, nodes, item.kind);
    DeleteTree(copy, hooks);
  }

  lemma PartIsReady(copy: Node, last: Node?, nodes: seq<Node>, kind: Kind)
    requires Chain(copy.child, last, nodes, kind) && copy.children == nodes
    requires copy !in Footprint(nodes) && copy.Strings() !! Footprint(nodes)
      && copy.owned == copy.Strings() + Footprint(nodes)
    requires copy.valuestring != null ==> IsText(copy.valuestring)
    requires copy.key != null ==> IsText(copy.key) && copy.key != copy.valuestring
    ensures copy.Ready()
  {
    hide Node.Valid, IsText, Ups;
    WholesAreFlat(nodes, kind);
    forall c | c in nodes ensures c in copy.owned && c !in c.owned && c.owned <= copy.owned - {c} {
      ValidParts(c);
      assert c.Share() <= Footprint(nodes);
    }
  }

  /** The first `k` children and all below them are not too deep. */
  ghost predicate PrefixOK(item: Node, k: nat, depth: nat)
    reads item`children, item.children`tree
  {
    k <= |item.children| && (k > 0 ==> depth < CIRCULAR_LIMIT)
    && forall i {:trigger item.children[i]} :: 0 <= i < k ==> DepthOK(item.children[i].tree, depth + 1)
  }

  lemma DepthOfElements(xs: seq<J>, depth: nat)
    ensures DepthOK(Arr(xs), depth) <==>
      (|xs| > 0 ==> depth < CIRCULAR_LIMIT) && forall i :: 0 <= i < |xs| ==> DepthOK(xs[i], depth + 1)
  {
    assert forall i :: 0 <= i < |xs| ==> xs[i] in xs;
    assert forall x :: x in xs ==> exists i :: 0 <= i < |xs| && xs[i] == x;
  }

  lemma DepthOfMembers(ms: seq<Member>, depth: nat)
    ensures DepthOK(Obj(ms), depth) <==>
      (|ms| > 0 ==> depth < CIRCULAR_LIMIT) && forall i :: 0 <= i < |ms| ==> DepthOK(ms[i].value, depth + 1)
  {
    assert forall i :: 0 <= i < |ms| ==> ms[i] in ms;
    assert forall m :: m in ms ==> exists i :: 0 <= i < |ms| && ms[i] == m;
  }

  /** A tree is not too deep exactly when all its children are not. */
  lemma DepthOfChildren(item: Node, depth: nat)
    requires item.Valid()
    ensures PrefixOK(item, |item.children|, depth) <==> DepthOK(item.tree, depth)
  {
    hide Node.Valid, CString, DepthOK, Trees, Nodes.Members, TextOf, IsText;
    ValidTree(item);
    if item.kind == IsArray {
      DepthOfElements(item.tree.elements, depth);
      assert forall i {:trigger item.children[i]} :: 0 <= i < |item.children| ==>
        item.tree.elements[i] == item.children[i].tree;
    } else if item.kind == IsObject {
      DepthOfMembers(item.tree.members, depth);
      assert forall i {:trigger item.children[i]} :: 0 <= i < |item.children| ==>
        item.tree.members[i].value == item.children[i].tree;
    } else {
      LeafDepth(item.tree, depth);
    }
  }

  lemma LeafDepth(j: J, depth: nat)
    requires !j.Arr? && !j.Obj?
    ensures DepthOK(j, depth)
  {
  }

  /** One turn of the loop of cJSON_Duplicate_rec. */
  method CopyChild(copy: Node, last: Node?, ghost nodes: seq<Node>, item: Node, child: Node, depth: nat,
      hooks: Allocator)
    returns (newchild: Node?)
    requires Copying(copy, last, nodes, item) && item.Valid() && |nodes| < |item.children|
      && child == item.children[|nodes|]
    requires item.Share() !! Footprint(nodes) + copy.Share()
    requires hooks !in item.Share() + Footprint(nodes) + copy.Share()
    modifies copy`child, One(last)`next, hooks
    ensures old(hooks.failed) ==> hooks.failed
    ensures newchild == null ==>
      Copying(copy, last, nodes, item) && hooks.live == old(hooks.live) && Footprint(nodes) == old(Footprint(nodes))
      && (hooks.failed || !DepthOK(child.tree, depth + 1))
    ensures newchild != null ==>
      Copying(copy, newchild, nodes + [newchild], item) && fresh(newchild.Share()) && DepthOK(child.tree, depth + 1)
      && Footprint(nodes + [newchild]) == old(Footprint(nodes)) + newchild.Share()
      && hooks.live == old(hooks.live) + newchild.Share()
    decreases item.owned, 0
  {
    hide Node.Valid, Node.Ready, IsCopy, Chain, Below, Footprint, Same, Fields, CString, Copying, DepthOK;
    CopyingIsAllocated(copy, last, nodes, item);
    ChildIsBelow(item, child);
    newchild := DuplicateRec(child, depth + 1, true, hooks);
    if newchild != null {
      LinkCopy(copy, last, newchild, nodes, item);
    }
  }

  /** What `Copying` reads is all allocated, and the list and the source own it. */
  lemma CopyingIsAllocated(copy: Node, last: Node?, nodes: seq<Node>, item: Node)
    requires Copying(copy, last, nodes, item)
    ensures forall o | o in Footprint(nodes) :: allocated(o)
    ensures Footprint(nodes) == (set n | n in nodes) + Below(nodes)
    ensures last != null ==> last in nodes && last in Footprint(nodes)
    ensures copy.child != null ==> copy.child in Footprint(nodes)
  {
    hide Chain, Fields, Same;
    CopyingParts(copy, last, nodes, item);
    ChainHead(copy.child, last, nodes, item.kind);
    assert last != null ==> last in last.Share();
  }

  /** The loop of cJSON_Duplicate_rec. */
  method CopyChildren(copy: Node, item: Node, depth: nat, hooks: Allocator)
    returns (ok: bool, last: Node?, ghost nodes: seq<Node>)
    requires item.Valid() && Fields(copy, item) && copy.child == null
    requires item.Share() !! copy.Share() && hooks !in item.Share() + copy.Share()
    modifies copy`child, hooks
    ensures old(hooks.failed) ==> hooks.failed
    ensures Copying(copy, last, nodes, item) && fresh(Footprint(nodes))
      && hooks.live == old(hooks.live) + Footprint(nodes)
    ensures ok ==> |nodes| == |item.children| && DepthOK(item.tree, depth)
    ensures !ok ==> hooks.failed || !DepthOK(item.tree, depth)
    decreases item.owned, 1
  {
    hide Node.Valid, Node.Ready, IsCopy, Chain, Below, Footprint, Same, Fields, CString, Copying, DepthOK, Linked;
    last, nodes := null, [];
    NoCopies(copy, item);
    DepthOfChildren(item, depth);
    ChildrenLinked(item);
    FirstOf(item.child, item.children);
    var child := item.child;
    while child != null
      invariant |nodes| <= |item.children|
        && child == (if |nodes| < |item.children| then item.children[|nodes|] else null)
      invariant Copying(copy, last, nodes, item) && fresh(Footprint(nodes))
        && hooks.live == old(hooks.live) + Footprint(nodes)
      invariant PrefixOK(item, |nodes|, depth) && (old(hooks.failed) ==> hooks.failed)
      decreases |item.children| - |nodes|
    {
      if depth >= CIRCULAR_LIMIT {
        return false, last, nodes;
      }
      CopyingIsAllocated(copy, last, nodes, item);
      var newchild := CopyChild(copy, last, nodes, item, child, depth, hooks);
      if newchild == null {
        return false, last, nodes;
      }
      NextOf(item.child, item.children, |nodes|);
      last := newchild;
      nodes := nodes + [newchild];
      child := child.next;
    }
    return true, last, nodes;
  }

  lemma NoCopies(copy: Node, item: Node)
    requires item.Valid() && Fields(copy, item) && copy.child == null
    ensures Copying(copy, null, [], item) && Footprint([]) == {}
  {
    NoFootprint();
    NoChain(item.kind);
  }

  /** cJSON_Duplicate_rec. Nothing that existed before is changed but the allocator. */
  method DuplicateRec(item: Node?, depth: nat, recurse: bool, hooks: Allocator) returns (copy: Node?)
    requires item != null ==> item.Valid() && hooks !in item.Share()
    modifies hooks
    ensures old(hooks.failed) ==> hooks.failed
    ensures copy == null ==>
      hooks.live == old(hooks.live) && (item == null || hooks.failed || (recurse && !DepthOK(item.tree, depth)))
    ensures copy != null ==>
      item != null && fresh(copy.Share()) && hooks.live == old(hooks.live) + copy.Share()
      && IsCopy(copy, item, if recurse then item.tree else Shallow(item.tree))
      && (recurse ==> DepthOK(item.tree, depth))
    decreases if item == null then {} else item.owned, 2
  {
    hide Node.Valid, Node.Ready, IsCopy, Chain, Below, Footprint, Same, Fields, CString, Copying, DepthOK;
    if item == null {
      return null;
    }
    copy := CopyNode(item, hooks);
    if copy == null {
      return;
    }
    if !recurse {
      copy.tree := Shallow(item.tree);
      ShallowIsValid(copy, item);
      return;
    }
    var ok, last;
    ghost var nodes;
    ok, last, nodes := CopyChildren(copy, item, depth, hooks);
    if !ok {
      Abandon(copy, item, last, nodes, hooks);
      return null;
    }
    CopyingIsAllocated(copy, last, nodes, item);
    FinishCopy(copy, item, last, nodes);
  }

  /** cJSON_Duplicate. */
  method Duplicate(item: Node?, recurse: bool, hooks: Allocator) returns (copy: Node?)
    requires item != null ==> item.Valid() && hooks !in item.Share()
    modifies hooks
    ensures old(hooks.failed) ==> hooks.failed
    ensures copy == null ==>
      hooks.live == old(hooks.live) && (item == null || hooks.failed || (recurse && !DepthOK(item.tree, 0)))
    ensures copy != null ==>
      item != null && fresh(copy.Share()) && hooks.live == old(hooks.live) + copy.Share()
      && IsCopy(copy, item, if recurse then item.tree else Shallow(item.tree))
      && (recurse ==> DepthOK(item.tree, 0))
  {
    hide IsCopy, Node.Valid, DepthOK;
    copy := DuplicateRec(item, 0, recurse, hooks);
  }

  /** A parsed tree is never too deep to be copied. */
  lemma {:induction false} NestingIsCopyable(j: J, n: nat, depth: nat)
    requires NestingAtMost(j, n) && n + depth <= 10000
    ensures DepthOK(j, depth)
    decreases j
  {
    match j
    case Arr(xs) =>
      forall x | x in xs ensures DepthOK(x, depth + 1) {
        NestingIsCopyable(x, n - 1, depth + 1);
      }
    case Obj(ms) =>
      forall m | m in ms ensures DepthOK(m.value, depth + 1) {
        NestingIsCopyable(m.value, n - 1, depth + 1);
      }
    case _ =>
  }
}
