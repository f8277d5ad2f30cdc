/** Child lists under construction, as the parser and the deep copy build them. */
module Chains {
  import opened Json
  import opened Nodes
  import opened Lists
  import opened TreeEdits

  /** A node about to be filled: it has at most a name. */
  ghost predicate Pending(item: Node)
    reads item`valuestring, item`key, item`child, item`children, item`owned, item.owned
  {
    item.Ready() && item.valuestring == null && item.child == null && item.children == []
  }

  /** Every node but the first points back to the one before. */
  ghost predicate Ups(nodes: seq<Node>)
    reads nodes`prev
  {
    forall i {:trigger nodes[i].prev} :: 0 < i < |nodes| ==> nodes[i].prev == nodes[i - 1]
  }

  /** The children made so far, linked from `head` to `last`. */
  ghost predicate Chain(head: Node?, last: Node?, nodes: seq<Node>, kind: Kind)
    reads nodes, Below(nodes)
  {
    Linked(head, nodes) && Ups(nodes) && Wholes(nodes, kind)
    && last == if nodes == [] then null else nodes[|nodes| - 1]
  }

  /** Separate trees that can be children of such a container; their own links do not matter. */
  ghost predicate Wholes(nodes: seq<Node>, kind: Kind)
    reads nodes`kind, nodes`valuestring, nodes`valueint, nodes`valuedouble, nodes`key, nodes`child
    reads nodes`children, nodes`owned, nodes`tree, Below(nodes)
  {
    Apart(nodes) && Suit(nodes, kind) && forall n | n in nodes :: n.Valid()
  }

  lemma WholesAreFlat(nodes: seq<Node>, kind: Kind)
    requires Wholes(nodes, kind)
    ensures forall n | n in nodes :: n !in Below(nodes)
    ensures forall o | o in Footprint(nodes) :: allocated(o)
    ensures Footprint(nodes) == (set n | n in nodes) + Below(nodes) && Distinct(nodes)
  {
    hide Node.Valid, Node.Ready;
    forall n | n in nodes ensures n !in n.owned {
      ValidParts(n);
    }
    SiblingsApart(nodes);
    ApartIsDistinct(nodes);
    FootprintIsBelow(nodes);
  }

  lemma FootprintIsBelow(nodes: seq<Node>)
    ensures Footprint(nodes) == (set n | n in nodes) + Below(nodes)
  {
    assert forall n, o | n in nodes && o in n.Share() :: o == n || o in n.owned;
    assert forall n | n in nodes :: n in n.Share() && n.owned <= n.Share();
    assert forall o | o in Footprint(nodes) :: o in (set n | n in nodes) + Below(nodes);
    assert forall o | o in (set n | n in nodes) + Below(nodes) :: o in Footprint(nodes);
  }

  /** `item` has been linked after the children made so far. */
  ghost predicate Attached(head: Node, nodes: seq<Node>, item: Node, kind: Kind)
    reads nodes, Below(nodes), item`next, item`prev
  {
    Linked(head, nodes + [item]) && Ups(nodes + [item]) && Wholes(nodes, kind) && item !in Footprint(nodes)
  }

  /** The new node of a turn: allocated, blank, and linked after the last one. */
  method Attach(head: Node?, last: Node?, ghost nodes: seq<Node>, ghost kind: Kind, hooks: Allocator)
    returns (item: Node?, first: Node?)
    requires Chain(head, last, nodes, kind) && hooks !in Footprint(nodes)
    modifies One(last)`next, hooks
    ensures old(hooks.failed) ==> hooks.failed
    ensures item == null ==>
      first == head && hooks.live == old(hooks.live) && hooks.failed
      && Chain(head, last, nodes, kind)
    ensures item != null ==>
      fresh(item) && Pending(item) && item.key == null && item.owned == {} && hooks.live == old(hooks.live) + {item}
      && first != null && Attached(first, nodes, item, kind)
  {
    hide Chain, Attached, Footprint, Below, Node.Ready;
    ChainIsAllocated(head, last, nodes, kind);
    item := hooks.NewItem();
    first := head;
    if item == null {
      return;
    }
    BlankIsPending(item);
    Link(head, last, nodes, kind, item);
    if head == null {
      first := item;
    }
  }

  lemma ChainIsAllocated(head: Node?, last: Node?, nodes: seq<Node>, kind: Kind)
    requires Chain(head, last, nodes, kind)
    ensures forall o | o in Footprint(nodes) :: allocated(o)
    ensures Footprint(nodes) == (set n | n in nodes) + Below(nodes)
    ensures last != null ==> last in nodes
  {
    WholesAreFlat(nodes, kind);
  }

  lemma BlankIsPending(item: Node)
    requires item.Blank()
    ensures Pending(item) && item.Ready()
  {
  }

  lemma ApartIsDistinct(nodes: seq<Node>)
    requires Apart(nodes)
    ensures Distinct(nodes)
  {
    forall i, k | 0 <= i < k < |nodes| ensures nodes[i] != nodes[k] {
      assert nodes[i].Share() !! nodes[k].Share();
    }
  }

  /** The stores that link a new node. */
  method Link(head: Node?, last: Node?, ghost nodes: seq<Node>, ghost kind: Kind, item: Node)
    requires Chain(head, last, nodes, kind) && item !in Footprint(nodes) && item.next == null
    modifies One(last)`next, item`prev
    ensures Attached(if head == null then item else head, nodes, item, kind)
  {
    hide Wholes, Below, Footprint;
    WholesAreFlat(nodes, kind);
    if head != null {
      last.next := item;
      item.prev := last;
    }
    ghost var all := nodes + [item];
    assert forall i {:trigger all[i]} :: 0 <= i < |nodes| ==> all[i] == nodes[i];
  }

  /** A finished node makes the list one longer; an unfinished one leaves it fit to be deleted. */
  lemma AttachedGrows(head: Node, nodes: seq<Node>, item: Node, kind: Kind)
    requires Attached(head, nodes, item, kind) && item.owned !! Footprint(nodes) && item !in item.owned
    ensures Footprint(nodes + [item]) == Footprint(nodes) + item.Share()
    ensures item.Valid() && (kind == IsObject ==> item.key != null) ==> Chain(head, item, nodes + [item], kind)
    ensures item.Ready() ==> Forest(head, nodes + [item])
  {
    hide Node.Valid, Node.Ready, Linked, Ups, Footprint;
    var all := nodes + [item];
    WholesAreFlat(nodes, kind);
    FootprintIsBelow(all);
    FootprintIsBelow(nodes);
    assert forall n :: n in all <==> n in nodes || n == item;
    assert forall o :: o in Below(all) <==> o in Below(nodes) || o in item.owned;
    forall i, k | 0 <= i < k < |all| ensures all[i].Share() !! all[k].Share() {
      assert all[i] in nodes;
      if k < |nodes| {
        assert nodes[i].Share() !! nodes[k].Share();
      }
    }
    forall n | n in nodes ensures n.Ready() {
      ValidParts(n);
    }
  }

  lemma ChainIsForest(head: Node?, last: Node?, nodes: seq<Node>, kind: Kind)
    requires Chain(head, last, nodes, kind)
    ensures Forest(head, nodes)
  {
    hide Node.Valid, Node.Ready, Linked, Ups, Footprint;
    forall n | n in nodes ensures n.Ready() {
      ValidParts(n);
    }
  }

  /** Trees apart from a container of their kind make a family. */
  lemma WholesAreFamily(item: Node, nodes: seq<Node>)
    requires Wholes(nodes, item.kind) && IsContainer(item.kind) && item.valuestring == null
    requires item !in Footprint(nodes) && (item.key != null ==> IsText(item.key) && item.key !in Footprint(nodes))
    ensures Family(item, nodes)
  {
    hide Node.Valid, Node.Ready, IsText, Footprint, Apart;
    WholesAreFlat(nodes, item.kind);
    forall n | n in nodes ensures item != n && item !in n.owned && forall d | d in nodes :: d !in n.owned {
      assert n.owned <= Below(nodes);
    }
  }

  lemma ChainLinks(head: Node?, last: Node?, nodes: seq<Node>, kind: Kind)
    requires Chain(head, last, nodes, kind)
    ensures Wholes(nodes, kind) && Suit(nodes, kind)
    ensures Footprint(nodes) == (set n | n in nodes) + Below(nodes)
    ensures forall o | o in Footprint(nodes) :: allocated(o)
    ensures head == if nodes == [] then null else nodes[0]
    ensures forall n | n in nodes :: n !in Below(nodes)
  {
    WholesAreFlat(nodes, kind);
  }

  lemma ChainHead(head: Node?, last: Node?, nodes: seq<Node>, kind: Kind)
    requires Chain(head, last, nodes, kind)
    ensures head != null ==> head in Footprint(nodes)
  {
    if head != null {
      assert head in nodes && head in head.Share();
    }
  }

  /** The store that makes a complete list a ring. */
  method CloseRing(head: Node?, last: Node?, ghost nodes: seq<Node>, ghost kind: Kind)
    requires Chain(head, last, nodes, kind)
    modifies One(head)`prev
    ensures Wholes(nodes, kind) && Linked(head, nodes) && Ring(nodes)
  {
    hide Wholes, Below, Footprint;
    WholesAreFlat(nodes, kind);
    if head != null {
      head.prev := last;
    }
  }

  /** The node becomes a container of the finished children. */
  method Contain(item: Node, kind: Kind, head: Node?, last: Node?, ghost nodes: seq<Node>)
    requires Pending(item) && Chain(head, last, nodes, kind) && IsContainer(kind)
    requires item !in Footprint(nodes) && item.owned !! Footprint(nodes)
    modifies item`kind, item`child, item`children, item`owned, item`tree, One(head)`prev
    ensures item.Valid() && item !in item.owned && item.owned == old(item.owned) + old(Footprint(nodes))
    ensures Suit(nodes, kind) && item.tree == old(TreeOf(kind, nodes)) && item.kind == kind && item.children == nodes
  {
    hide Node.Valid, Node.Ready, Chain, Wholes, Family, Below, Footprint, Linked, Ring, TreeOf, Suit, Pending;
    hide Assembled;
    ChainLinks(head, last, nodes, kind);
    PendingParts(item);
    CloseRing(head, last, nodes, kind);
    item.kind := kind;
    item.child := head;
    WholesAreFamily(item, nodes);
    MakeAssembled(item, nodes);
    Adopt(item, nodes);
  }

  lemma PendingParts(item: Node)
    requires Pending(item)
    ensures item.Ready() && item.valuestring == null && item.owned == item.Strings() && item !in item.owned
    ensures item.key != null ==> IsText(item.key) && item.key in item.owned
  {
    NoFootprint();
  }

  lemma MakeAssembled(parent: Node, nodes: seq<Node>)
    requires Family(parent, nodes) && Linked(parent.child, nodes) && Ring(nodes)
    ensures Assembled(parent, nodes) && Suit(nodes, parent.kind)
    ensures parent !in Footprint(nodes) && parent !in parent.Strings()
  {
  }

  lemma TreesGrow(nodes: seq<Node>, item: Node)
    ensures Trees(nodes + [item]) == Trees(nodes) + [item.tree]
  {
  }

  lemma NoFootprint()
    ensures Footprint([]) == {}
  {
  }

  lemma NoChain(kind: Kind)
    ensures Chain(null, null, [], kind)
  {
  }

  /** The members that nodes stand for; no name is the empty name here. */
  ghost function Rows(nodes: seq<Node>): (r: seq<Member>)
    reads nodes`tree, nodes`key, set n | n in nodes :: n.key
    ensures |r| == |nodes| && forall i :: 0 <= i < |nodes| ==> r[i] == Member(NameOf(nodes[i]), nodes[i].tree)
  {
    if nodes == [] then [] else [Member(NameOf(nodes[0]), nodes[0].tree)] + Rows(nodes[1..])
  }

  lemma RowsGrow(nodes: seq<Node>, item: Node)
    requires item.key != null
    ensures Rows(nodes + [item]) == Rows(nodes) + [Member(TextOf(item.key), item.tree)]
  {
    hide TextOf;
  }

  lemma ChainSuits(head: Node?, last: Node?, nodes: seq<Node>, kind: Kind)
    requires Chain(head, last, nodes, kind)
    ensures Suit(nodes, kind)
  {
  }

  lemma ArrayTreeOf(nodes: seq<Node>)
    ensures Suit(nodes, IsArray) && TreeOf(IsArray, nodes) == Arr(Trees(nodes))
  {
  }

  lemma ObjectTreeOf(nodes: seq<Node>)
    requires Suit(nodes, IsObject)
    ensures TreeOf(IsObject, nodes) == Obj(Rows(nodes))
  {
    assert Nodes.Members(nodes) == Rows(nodes);
  }

  lemma PendingIsReady(item: Node)
    requires Pending(item)
    ensures item.Ready()
  {
  }

  lemma ValidIsReady(item: Node)
    requires item.Valid()
    ensures item.Ready()
  {
  }

  lemma LeafIsValid(item: Node)
    requires Pending(item)
    requires match item.kind
      case IsNull => item.tree == Null
      case IsFalse => item.tree == False
      case IsTrue => item.tree == True
      case IsNumber => item.tree == Num(item.valuedouble) && item.valueint == ValueInt(item.valuedouble)
      case _ => false
    ensures item.Valid() && item !in item.owned
  {
    assert item.Ready();
  }

  lemma EmptyIsValid(item: Node)
    requires item.Ready() && item.child == null && item.children == [] && item.valuestring == null
    requires (item.kind == IsArray && item.tree == Arr([])) || (item.kind == IsObject && item.tree == Obj([]))
    ensures item.Valid()
  {
  }

  lemma StringIsValid(item: Node)
    requires item.kind == IsString && item.child == null && item.children == []
    requires item.valuestring != null && IsText(item.valuestring) && item.tree == Str(TextOf(item.valuestring))
    requires item.key != null ==> IsText(item.key) && item.key != item.valuestring
    requires item.owned == item.Strings()
    ensures item.Valid() && item !in item.owned
  {
    NoFootprint();
    assert item.Ready();
  }
}
