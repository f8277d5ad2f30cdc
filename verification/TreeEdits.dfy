/** Changing trees: adding, inserting, detaching and replacing children of arrays and objects. */
module TreeEdits {
  import opened Bytes
  import opened Json
  import opened Nodes
  import opened Lists

  predicate IsContainer(kind: Kind) {
    kind == IsArray || kind == IsObject
  }

  /** All can be children of a node of that kind: members of objects have keys. */
  ghost predicate Suit(nodes: seq<Node>, kind: Kind)
    reads nodes`key
  {
    kind == IsObject ==> forall n | n in nodes :: n.key != null
  }

  /** The tree that children make. */
  ghost function TreeOf(kind: Kind, nodes: seq<Node>): J
    requires Suit(nodes, kind) && IsContainer(kind)
    reads nodes`tree, nodes`key, set n | n in nodes :: n.key
  {
    if kind == IsArray then Arr(Trees(nodes)) else Obj(Members(nodes))
  }

  /** What is strictly below the nodes of a list. */
  ghost function Below(nodes: seq<Node>): set<object>
    reads nodes`owned
  {
    set n, o | n in nodes && o in n.owned :: o
  }

  /** A container and the trees that are, or are to be, its children. Neither the links nor the
      ghost fields of the container matter here. */
  ghost predicate Family(parent: Node, nodes: seq<Node>)
    reads parent`kind, parent`valuestring, parent`key, parent.key
    reads nodes`kind, nodes`valuestring, nodes`valueint, nodes`valuedouble, nodes`key, nodes`child
    reads nodes`children, nodes`owned, nodes`tree, Below(nodes)
  {
    IsContainer(parent.kind) && parent.valuestring == null && Apart(nodes) && Suit(nodes, parent.kind)
    && (forall n | n in nodes ::
          n.Valid() && parent != n && parent !in n.owned && forall d | d in nodes :: d !in n.owned)
    && (parent.key != null ==> IsText(parent.key) && parent.key !in Footprint(nodes))
  }

  /** No node of a family, nor its container, is below one. */
  lemma FamilyIsFlat(parent: Node, nodes: seq<Node>)
    requires Family(parent, nodes)
    ensures parent !in Below(nodes) && parent !in nodes && forall d | d in nodes :: d !in Below(nodes)
    ensures Suit(nodes, parent.kind) && IsContainer(parent.kind) && forall o | o in Below(nodes) :: allocated(o)
    ensures Distinct(nodes)
  {
    forall i, k | 0 <= i < k < |nodes| ensures nodes[i] != nodes[k] {
      assert nodes[i].Share() !! nodes[k].Share();
    }
  }

  lemma FamilyOf(parent: Node)
    requires parent.Valid() && IsContainer(parent.kind)
    ensures Family(parent, parent.children) && Linked(parent.child, parent.children) && Ring(parent.children)
    ensures parent !in parent.owned && parent.owned == parent.Strings() + Footprint(parent.children)
    ensures parent.tree == TreeOf(parent.kind, parent.children)
  {
    hide Node.Ready, Node.Valid, Trees, Members, IsText, Forest, Linked, Ring, Apart, Footprint;
    ValidParts(parent);
    ValidTree(parent);
    OwnedParts(parent);
    SiblingsApart(parent.children);
    KeyIsText(parent);
    assert forall n | n in parent.children :: n.Share() <= parent.owned;
  }

  lemma KeyIsText(n: Node)
    requires n.Ready()
    ensures n.key != null ==> IsText(n.key) && n.key in n.owned
  {
  }

  lemma SiblingsApart(nodes: seq<Node>)
    requires Apart(nodes) && forall n | n in nodes :: n !in n.owned
    ensures forall n, d | n in nodes && d in nodes :: d !in n.owned
  {
    forall n, d | n in nodes && d in nodes ensures d !in n.owned {
      var i :| 0 <= i < |nodes| && nodes[i] == n;
      var k :| 0 <= k < |nodes| && nodes[k] == d;
      if i < k {
        assert nodes[i].Share() !! nodes[k].Share();
      } else if k < i {
        assert nodes[k].Share() !! nodes[i].Share();
      }
    }
  }

  /** The facts that make a container a whole tree again after its list was rewired. */
  lemma Rebuilt(parent: Node)
    requires Assembled(parent, parent.children)
    requires parent.owned == parent.Strings() + Footprint(parent.children)
    requires parent.tree == TreeOf(parent.kind, parent.children)
    ensures parent.Valid()
  {
    assert parent !in Footprint(parent.children);
    forall c | c in parent.children
      ensures c in parent.owned && c !in c.owned && c.owned <= parent.owned - {c} && parent.key !in c.owned
      ensures parent.kind == IsObject ==> c.key in c.owned
    {
      assert c.Share() <= Footprint(parent.children);
      assert c.Ready();
    }
    assert parent.Ready();
  }

  // ---- one more child ----

  /** `item` is a tree apart from the container, not in any list, that can be its child. */
  ghost predicate CanJoin(parent: Node, item: Node)
    reads parent`owned, parent`kind, item, item.owned
  {
    item.Valid() && parent.Share() !! item.Share() && (parent.kind == IsObject ==> item.key != null)
  }

  lemma FamilyJoins(parent: Node, nodes: seq<Node>, item: Node)
    requires Family(parent, nodes) && parent.owned == parent.Strings() + Footprint(nodes)
    requires CanJoin(parent, item)
    ensures Family(parent, nodes + [item]) && item !in nodes
    ensures Footprint(nodes + [item]) == Footprint(nodes) + item.Share()
  {
    hide Node.Valid, Node.Ready, IsText, Linked, Ring, Forest, Apart, Footprint;
    ValidParts(item);
    FootprintJoins(nodes, item);
    ApartJoins(nodes, item);
    assert forall n :: n in nodes + [item] <==> n in nodes || n == item;
  }

  lemma FootprintJoins(nodes: seq<Node>, item: Node)
    ensures Footprint(nodes + [item]) == Footprint(nodes) + item.Share()
    ensures forall n | n in nodes :: n in n.Share() && n.Share() <= Footprint(nodes)
  {
    assert forall n :: n in nodes + [item] <==> n in nodes || n == item;
    assert forall o :: o in Footprint(nodes + [item]) <==> o in Footprint(nodes) || o in item.Share();
  }

  lemma ApartJoins(nodes: seq<Node>, item: Node)
    requires Apart(nodes) && forall n | n in nodes :: n.Share() !! item.Share()
    ensures Apart(nodes + [item])
  {
    var all := nodes + [item];
    assert forall i | 0 <= i < |nodes| :: all[i] in nodes;
  }

  /** The name of a node, empty if it has none. */
  ghost function NameOf(n: Node): Bytes
    reads n`key, n.key
  {
    if n.key == null then [] else TextOf(n.key)
  }

  /** A child as its parent shows it: elements of arrays have no names. */
  ghost function EntryOf(kind: Kind, n: Node): Member
    reads n`key, n`tree, n.key
  {
    Member(if kind == IsArray then [] else NameOf(n), n.tree)
  }

  /** The children of a tree as names and values. */
  function Entries(j: J): seq<Member> {
    match j
    case Arr(xs) => seq(|xs|, i requires 0 <= i < |xs| => Member([], xs[i]))
    case Obj(ms) => ms
    case _ => []
  }

  /** The tree of that kind with those children. */
  function WithEntries(kind: Kind, entries: seq<Member>): J {
    if kind == IsArray then Arr(seq(|entries|, i requires 0 <= i < |entries| => entries[i].value)) else Obj(entries)
  }

  /** The tree with one more child before position `k`. */
  function With(kind: Kind, tree: J, k: nat, e: Member): J {
    var es := Entries(tree);
    if k <= |es| then WithEntries(kind, es[..k] + [e] + es[k..]) else tree
  }

  /** The tree without its `k`-th child. */
  function Without(kind: Kind, tree: J, k: nat): J {
    var es := Entries(tree);
    if k < |es| then WithEntries(kind, es[..k] + es[k + 1..]) else tree
  }

  /** The tree with another child in place of the `k`-th. */
  function Exchanged(kind: Kind, tree: J, k: nat, e: Member): J {
    var es := Entries(tree);
    if k < |es| then WithEntries(kind, es[k := e]) else tree
  }

  predicate IsOfKind(kind: Kind, tree: J) {
    (kind == IsArray && tree.Arr?) || (kind == IsObject && tree.Obj?)
  }

  lemma EntriesAndBack(kind: Kind, tree: J, es: seq<Member>)
    requires IsOfKind(kind, tree)
    ensures WithEntries(kind, Entries(tree)) == tree
    ensures kind == IsArray ==> forall i :: 0 <= i < |Entries(tree)| ==> Entries(tree)[i].key == []
    ensures (kind == IsArray ==> forall i :: 0 <= i < |es| ==> es[i].key == []) ==> Entries(WithEntries(kind, es)) == es
    ensures IsOfKind(kind, WithEntries(kind, es))
  {
    if kind == IsArray {
      assert WithEntries(kind, Entries(tree)).elements == tree.elements;
      assert (forall i :: 0 <= i < |es| ==> es[i].key == []) ==> Entries(WithEntries(kind, es)) == es;
    }
  }

  /** Detaching undoes inserting. */
  lemma DetachUndoesInsert(kind: Kind, tree: J, k: nat, e: Member)
    requires IsOfKind(kind, tree) && k <= |Entries(tree)| && (kind == IsArray ==> e.key == [])
    ensures Without(kind, With(kind, tree, k, e), k) == tree
  {
    hide Entries, WithEntries;
    var es := Entries(tree);
    var more := es[..k] + [e] + es[k..];
    EntriesAndBack(kind, tree, more);
    assert more[..k] + more[k + 1..] == es;
  }

  /** Inserting a child where it was detached undoes detaching. */
  lemma InsertUndoesDetach(kind: Kind, tree: J, k: nat)
    requires IsOfKind(kind, tree) && k < |Entries(tree)|
    ensures With(kind, Without(kind, tree, k), k, Entries(tree)[k]) == tree
  {
    hide Entries, WithEntries;
    var es := Entries(tree);
    var less := es[..k] + es[k + 1..];
    EntriesAndBack(kind, tree, less);
    assert less[..k] + [es[k]] + less[k..] == es;
  }

  /** Replacing is detaching and then inserting. */
  lemma ReplaceIsDetachThenInsert(kind: Kind, tree: J, k: nat, e: Member)
    requires IsOfKind(kind, tree) && k < |Entries(tree)|
    ensures Exchanged(kind, tree, k, e) == With(kind, Without(kind, tree, k), k, e)
  {
    hide Entries, WithEntries;
    var es := Entries(tree);
    var less := es[..k] + es[k + 1..];
    EntriesAndBack(kind, tree, less);
    assert less[..k] + [e] + less[k..] == es[k := e];
  }

  /** A tree and its list of names and values determine each other. */
  lemma TreeIsEntries(kind: Kind, nodes: seq<Node>)
    requires IsContainer(kind) && Suit(nodes, kind)
    ensures var es := Entries(TreeOf(kind, nodes));
      |es| == |nodes| && (forall i {:trigger es[i]} :: 0 <= i < |nodes| ==> es[i] == EntryOf(kind, nodes[i]))
      && TreeOf(kind, nodes) == WithEntries(kind, es)
  {
    var es := Entries(TreeOf(kind, nodes));
    if kind == IsArray {
      assert TreeOf(kind, nodes).elements == WithEntries(kind, es).elements;
    } else {
      assert Members(nodes) == es;
    }
  }

  lemma SameEntries(kind: Kind, nodes: seq<Node>, es: seq<Member>)
    requires IsContainer(kind) && Suit(nodes, kind)
    requires |es| == |nodes| && forall i {:trigger es[i]} :: 0 <= i < |nodes| ==> es[i] == EntryOf(kind, nodes[i])
    ensures TreeOf(kind, nodes) == WithEntries(kind, es)
  {
    hide TreeOf, WithEntries, Entries, EntryOf;
    TreeIsEntries(kind, nodes);
    assert es == Entries(TreeOf(kind, nodes));
  }

  lemma AppendedTree(kind: Kind, nodes: seq<Node>, item: Node)
    requires IsContainer(kind) && Suit(nodes + [item], kind) && Suit(nodes, kind)
    ensures |Entries(TreeOf(kind, nodes))| == |nodes|
    ensures TreeOf(kind, nodes + [item]) == With(kind, TreeOf(kind, nodes), |nodes|, EntryOf(kind, item))
  {
    hide TreeOf, WithEntries, Entries, EntryOf, Suit;
    TreeIsEntries(kind, nodes);
    var es := Entries(TreeOf(kind, nodes));
    SameEntries(kind, nodes + [item], es[..|es|] + [EntryOf(kind, item)] + es[|es|..]);
  }

  /** A container whose child list is `nodes`, whatever its ghost fields say. */
  ghost predicate Assembled(parent: Node, nodes: seq<Node>)
    reads parent`kind, parent`valuestring, parent`key, parent`child, parent.key
    reads nodes`kind, nodes`valuestring, nodes`valueint, nodes`valuedouble, nodes`key, nodes`child
    reads nodes`children, nodes`owned, nodes`tree, nodes`next, nodes`prev, Below(nodes)
  {
    Family(parent, nodes) && Linked(parent.child, nodes) && Ring(nodes)
  }

  lemma FlatAssembly(parent: Node, nodes: seq<Node>)
    requires Assembled(parent, nodes)
    ensures parent !in Below(nodes) && parent !in nodes && (forall d | d in nodes :: d !in Below(nodes))
    ensures Suit(nodes, parent.kind) && IsContainer(parent.kind) && forall o | o in Below(nodes) :: allocated(o)
  {
    FamilyIsFlat(parent, nodes);
  }

  ghost method SetGhosts(n: Node, children: seq<Node>, owned: set<object>, tree: J)
    modifies n`children, n`owned, n`tree
    ensures n.children == children && n.owned == owned && n.tree == tree
  {
    n.children, n.owned, n.tree := children, owned, tree;
  }

  /** The ghost part of every change: the children of `parent` are now `nodes`. */
  ghost method Adopt(parent: Node, nodes: seq<Node>)
    requires Assembled(parent, nodes)
    modifies parent`children, parent`owned, parent`tree
    ensures parent.Valid() && parent.children == nodes && parent.owned == parent.Strings() + old(Footprint(nodes))
    ensures parent.tree == old(TreeOf(parent.kind, nodes))
  {
    hide Assembled, Node.Valid, Footprint, TreeOf, Below, Suit;
    FlatAssembly(parent, nodes);
    ghost var owned, tree := parent.Strings() + Footprint(nodes), TreeOf(parent.kind, nodes);
    SetGhosts(parent, nodes, owned, tree);
    Rebuilt(parent);
  }

  /** The node a pointer points to, if any. */
  ghost function One(n: Node?): set<Node> {
    if n == null then {} else {n}
  }

  /** A node with all it owns. */
  ghost function Whole(n: Node?): set<object>
    reads One(n)`owned
  {
    if n == null then {} else n.Share()
  }

  /** What a pointer to a tree stands for. */
  ghost function TreeAt(n: Node?): Option<J>
    reads One(n)`tree
  {
    if n == null then None else Some(n.tree)
  }

  /** The children of a node, none for a null pointer. */
  ghost function Kids(parent: Node?): seq<Node>
    reads One(parent)`children
  {
    if parent == null then [] else parent.children
  }

  /** The links of add_item_to_array keep the family, now with `item`. */
  method Append(parent: Node, item: Node, ghost nodes: seq<Node>)
    requires Family(parent, nodes + [item]) && Linked(parent.child, nodes) && Ring(nodes)
    requires nodes != [] ==> item.next == null
    modifies parent`child, nodes`next, nodes`prev, item`next, item`prev
    ensures Assembled(parent, nodes + [item])
    ensures TreeOf(parent.kind, nodes + [item]) == old(TreeOf(parent.kind, nodes + [item]))
  {
    hide Family, Linked, Ring, Distinct, TreeOf, Below, Suit;
    FamilyIsFlat(parent, nodes + [item]);
    assert item in nodes + [item] && forall d | d in nodes :: d in nodes + [item];
    LinkLast(parent, item, nodes);
  }

  /** What a container is to become: these children, owning this, standing for this tree. */
  ghost predicate Became(parent: Node, nodes: seq<Node>, owned: set<object>, tree: J)
    reads parent, parent.owned
  {
    parent.Valid() && parent.children == nodes && parent.owned == owned && parent.tree == tree
  }

  ghost function TreeWithLast(parent: Node, item: Node): J
    reads parent, item`key, item`tree, item.key
  {
    With(parent.kind, parent.tree, |Entries(parent.tree)|, EntryOf(parent.kind, item))
  }

  lemma CanAppend(parent: Node, item: Node)
    requires parent.Valid() && IsContainer(parent.kind) && CanJoin(parent, item)
    ensures var nodes := parent.children;
      Family(parent, nodes + [item]) && Linked(parent.child, nodes) && Ring(nodes)
      && Suit(nodes + [item], parent.kind) && TreeOf(parent.kind, nodes + [item]) == TreeWithLast(parent, item)
      && parent.Strings() + Footprint(nodes + [item]) == parent.owned + item.Share()
  {
    hide Node.Valid, Family, Linked, Ring, Footprint, TreeOf, Suit, Entries, WithEntries, EntryOf;
    FamilyOf(parent);
    FamilyJoins(parent, parent.children, item);
    FamilySuits(parent, parent.children);
    FamilySuits(parent, parent.children + [item]);
    AppendedTree(parent.kind, parent.children, item);
  }

  method AddLast(parent: Node, item: Node)
    requires parent.Valid() && IsContainer(parent.kind) && CanJoin(parent, item)
    requires parent.children != [] ==> item.next == null
    modifies parent`child, parent`children, parent`owned, parent`tree
    modifies parent.children`next, parent.children`prev, item`next, item`prev
    ensures Became(parent, old(parent.children) + [item], old(parent.owned + item.Share()),
        old(TreeWithLast(parent, item)))
  {
    hide Node.Valid, Assembled, Family, Linked, Ring, Footprint, TreeOf, TreeWithLast, CanJoin, Suit;
    ghost var nodes := parent.children;
    CanAppend(parent, item);
    Append(parent, item, nodes);
    Adopt(parent, nodes + [item]);
  }

  /** add_item_to_array: `item` becomes the last child. A null or identical argument is refused. */
  method AddItemToArray(parent: Node?, item: Node?) returns (added: bool)
    requires parent != null && item != null && parent != item ==>
      parent.Valid() && IsContainer(parent.kind) && CanJoin(parent, item)
        && (parent.children != [] ==> item.next == null)
    modifies One(parent)`child, One(parent)`children, One(parent)`owned, One(parent)`tree
    modifies Kids(parent)`next, Kids(parent)`prev, One(item)`next, One(item)`prev
    ensures added <==> parent != null && item != null && parent != item
    ensures added ==>
      Became(parent, old(parent.children) + [item], old(parent.owned + item.Share()), old(TreeWithLast(parent, item)))
  {
    hide Became, TreeWithLast, CanJoin, Node.Valid;
    if item == null || parent == null || parent == item {
      return false;
    }
    AddLast(parent, item);
    return true;
  }

  lemma FamilySuits(parent: Node, nodes: seq<Node>)
    requires Family(parent, nodes)
    ensures Suit(nodes, parent.kind) && IsContainer(parent.kind)
  {
  }

  // ---- the other edits ----

  /** Some of the nodes of a family, in any order, are a family. */
  lemma FamilySub(parent: Node, all: seq<Node>, nodes: seq<Node>)
    requires Family(parent, all) && Distinct(nodes) && forall n | n in nodes :: n in all
    ensures Family(parent, nodes)
  {
    hide Node.Valid, IsText;
    forall i, k | 0 <= i < k < |nodes| ensures nodes[i].Share() !! nodes[k].Share() {
      assert nodes[i] in all && nodes[k] in all;
      SharesApart(all, nodes[i], nodes[k]);
    }
    assert forall o | o in Footprint(nodes) :: o in Footprint(all);
  }

  lemma SharesApart(nodes: seq<Node>, a: Node, b: Node)
    requires Apart(nodes) && a in nodes && b in nodes && a != b
    ensures a.Share() !! b.Share()
  {
    var i :| 0 <= i < |nodes| && nodes[i] == a;
    var k :| 0 <= k < |nodes| && nodes[k] == b;
    if i < k {
      assert nodes[i].Share() !! nodes[k].Share();
    } else {
      assert nodes[k].Share() !! nodes[i].Share();
    }
  }

  /** Where a node is in a list. */
  ghost function IndexOf(nodes: seq<Node>, item: Node): (k: nat)
    requires item in nodes
    ensures k < |nodes| && nodes[k] == item
  {
    if nodes[0] == item then 0 else IndexOf(nodes[1..], item) + 1
  }

  lemma {:induction false} IndexOfAt(nodes: seq<Node>, k: nat)
    requires Distinct(nodes) && k < |nodes|
    ensures IndexOf(nodes, nodes[k]) == k
  {
    var i := IndexOf(nodes, nodes[k]);
  }

  ghost function TreeWithout(parent: Node, k: nat): J
    reads parent
  {
    Without(parent.kind, parent.tree, k)
  }

  /** What a list without its `k`-th node stands for. */
  lemma WithoutOne(kind: Kind, nodes: seq<Node>, k: nat)
    requires IsContainer(kind) && Suit(nodes, kind) && k < |nodes| && Apart(nodes) && Distinct(nodes)
    ensures var rest := RemoveAt(nodes, k);
      Suit(rest, kind) && Distinct(rest) && (forall n :: n in rest <==> n in nodes && n != nodes[k])
    ensures var rest := RemoveAt(nodes, k);
      Footprint(rest) == Footprint(nodes) - nodes[k].Share() && k < |Entries(TreeOf(kind, nodes))|
      && TreeOf(kind, rest) == Without(kind, TreeOf(kind, nodes), k)
  {
    hide TreeOf, WithEntries, Entries, EntryOf;
    TreeIsEntries(kind, nodes);
    var rest := RemoveAt(nodes, k);
    assert forall i :: 0 <= i < |nodes| && i != k ==> nodes[i] == rest[if i < k then i else i - 1];
    forall n | n in nodes && n != nodes[k] ensures n.Share() !! nodes[k].Share() {
      SharesApart(nodes, n, nodes[k]);
    }
    var es := Entries(TreeOf(kind, nodes));
    SameEntries(kind, rest, es[..k] + es[k + 1..]);
  }

  /** The links of cJSON_DetachItemViaPointer keep the family, now without `item`. */
  method Detach(parent: Node, item: Node, ghost nodes: seq<Node>, ghost k: nat)
    requires Family(parent, nodes) && Linked(parent.child, nodes) && Ring(nodes) && k < |nodes| && item == nodes[k]
    modifies parent`child, nodes`next, nodes`prev
    ensures Assembled(parent, RemoveAt(nodes, k)) && item.Valid() && item.next == null && item.prev == null
    ensures parent !in item.Share() && forall o | o in item.owned :: allocated(o)
  {
    hide Family, Linked, Ring, Distinct, Below, RemoveAt, Node.Valid;
    FamilyIsFlat(parent, nodes);
    Unlink(parent, item, nodes, k);
    FamilyLoses(parent, nodes, k);
  }

  lemma FamilyLoses(parent: Node, nodes: seq<Node>, k: nat)
    requires Family(parent, nodes) && k < |nodes|
    ensures Family(parent, RemoveAt(nodes, k)) && nodes[k].Valid()
    ensures parent !in nodes[k].Share() && forall o | o in nodes[k].owned :: allocated(o)
  {
    hide Node.Valid;
    FamilyIsFlat(parent, nodes);
    WithoutOne(parent.kind, nodes, k);
    FamilySub(parent, nodes, RemoveAt(nodes, k));
  }

  lemma CanDetach(parent: Node, k: nat)
    requires parent.Valid() && k < |parent.children|
    ensures var nodes := parent.children;
      IsContainer(parent.kind) && Family(parent, nodes) && Linked(parent.child, nodes) && Ring(nodes) && Distinct(nodes)
      && Suit(RemoveAt(nodes, k), parent.kind) && TreeOf(parent.kind, RemoveAt(nodes, k)) == TreeWithout(parent, k)
      && parent.Strings() + Footprint(RemoveAt(nodes, k)) == parent.owned - nodes[k].Share()
  {
    hide Node.Valid, Node.Ready, Family, Linked, Ring, Footprint, TreeOf, Suit, Entries, WithEntries, EntryOf;
    IsParent(parent);
    FamilyOf(parent);
    FamilyIsFlat(parent, parent.children);
    FamilyApart(parent, parent.children, k);
    WithoutOne(parent.kind, parent.children, k);
  }

  lemma IsParent(parent: Node)
    requires parent.Valid() && parent.children != []
    ensures IsContainer(parent.kind)
  {
  }

  lemma FamilyApart(parent: Node, nodes: seq<Node>, k: nat)
    requires Family(parent, nodes) && k < |nodes|
    ensures Apart(nodes) && parent.Strings() !! nodes[k].Share()
  {
    assert nodes[k].Share() <= Footprint(nodes);
  }

  /** cJSON_DetachItemViaPointer: the child is cut out, whole, and belongs to nobody. A node that is in
      no list is refused. */
  method DetachItemViaPointer(parent: Node?, item: Node?) returns (detached: Node?)
    requires parent != null && item != null ==>
      parent.Valid() && (item in parent.children || (item.prev == null && item != parent.child))
    modifies One(parent)`child, One(parent)`children, One(parent)`owned, One(parent)`tree
    modifies Kids(parent)`next, Kids(parent)`prev
    ensures detached == if item in old(Kids(parent)) then item else null
    ensures detached != null ==>
      var k := IndexOf(old(parent.children), item);
      Became(parent, RemoveAt(old(parent.children), k), old(parent.owned) - item.Share(), old(TreeWithout(parent, k)))
      && detached.Valid() && detached.next == null && detached.prev == null
  {
    hide Node.Valid, Assembled, Family, Linked, Ring, Footprint, TreeOf, TreeWithout, Suit, RemoveAt;
    if parent == null || item == null || (item != parent.child && item.prev == null) {
      if item != null && parent != null {
        ChildHasPrev(parent, item);
      }
      return null;
    }
    ghost var nodes := parent.children;
    ChildHasPrev(parent, item);
    ghost var k := IndexOf(nodes, item);
    CanDetach(parent, k);
    Detach(parent, item, nodes, k);
    Adopt(parent, RemoveAt(nodes, k));
    return item;
  }

  lemma ChildHasPrev(parent: Node, item: Node)
    requires parent.Valid()
    ensures item in parent.children ==> item.prev != null
    ensures item == parent.child ==> item in parent.children
  {
    ValidParts(parent);
  }

  /** get_array_item: the child at a position, if there are that many. */
  method ArrayItem(parent: Node?, index: nat) returns (item: Node?)
    requires parent != null ==> parent.Valid()
    ensures item == if index < |Kids(parent)| then Kids(parent)[index] else null
  {
    hide Node.Valid, Linked;
    if parent == null {
      return null;
    }
    ghost var nodes := parent.children;
    ChildrenLinked(parent);
    ghost var k := 0;
    var left := index;
    item := parent.child;
    FirstOf(item, nodes);
    while item != null && left > 0
      invariant k <= |nodes| && item == (if k < |nodes| then nodes[k] else null)
      invariant 0 <= left && left + k == index
      decreases left
    {
      NextOf(parent.child, nodes, k);
      left := left - 1;
      item := item.next;
      k := k + 1;
    }
  }

  lemma ChildrenLinked(parent: Node)
    requires parent.Valid()
    ensures Linked(parent.child, parent.children)
  {
    ValidParts(parent);
  }

  lemma FirstOf(first: Node?, nodes: seq<Node>)
    requires Linked(first, nodes)
    ensures first == if nodes == [] then null else nodes[0]
  {
  }

  lemma NextOf(first: Node?, nodes: seq<Node>, k: nat)
    requires Linked(first, nodes) && k < |nodes|
    ensures nodes[k].next == if k + 1 < |nodes| then nodes[k + 1] else null
  {
  }

  /** cJSON_DetachItemFromArray. */
  method DetachItemFromArray(parent: Node?, which: int) returns (detached: Node?)
    requires parent != null ==> parent.Valid()
    modifies One(parent)`child, One(parent)`children, One(parent)`owned, One(parent)`tree
    modifies Kids(parent)`next, Kids(parent)`prev
    ensures detached == if 0 <= which < |old(Kids(parent))| then old(Kids(parent))[which] else null
    ensures detached != null ==>
      Became(parent, RemoveAt(old(parent.children), which), old(parent.owned) - detached.Share(),
          old(TreeWithout(parent, which)))
      && detached.Valid() && detached.next == null && detached.prev == null
  {
    hide Node.Valid, Became, TreeWithout, RemoveAt, Distinct;
    if which < 0 {
      return null;
    }
    var item := ArrayItem(parent, which);
    if item != null {
      ChildrenDistinct(parent);
      IndexOfAt(parent.children, which);
    }
    detached := DetachItemViaPointer(parent, item);
  }

  lemma ChildrenDistinct(parent: Node)
    requires parent.Valid()
    ensures Distinct(parent.children)
  {
    hide Node.Valid;
    if parent.children != [] {
      CanDetach(parent, 0);
    }
  }

  ghost function TreeWith(parent: Node, k: nat, item: Node): J
    reads parent, item`key, item`tree, item.key
  {
    With(parent.kind, parent.tree, k, EntryOf(parent.kind, item))
  }

  /** What a list with one more node stands for. */
  lemma WithOneMore(kind: Kind, nodes: seq<Node>, k: nat, item: Node)
    requires IsContainer(kind) && Suit(nodes + [item], kind) && k <= |nodes| && Distinct(nodes + [item])
    ensures var more := InsertAt(nodes, k, item);
      Suit(more, kind) && Suit(nodes, kind) && Distinct(more) && (forall n :: n in more <==> n in nodes || n == item)
    ensures var more := InsertAt(nodes, k, item);
      Footprint(more) == Footprint(nodes + [item]) && k <= |Entries(TreeOf(kind, nodes))|
      && TreeOf(kind, more) == With(kind, TreeOf(kind, nodes), k, EntryOf(kind, item))
  {
    hide TreeOf, WithEntries, Entries, EntryOf, Footprint;
    OneMoreNode(nodes, k, item);
    TreeIsEntries(kind, nodes);
    var es := Entries(TreeOf(kind, nodes));
    SameEntries(kind, InsertAt(nodes, k, item), es[..k] + [EntryOf(kind, item)] + es[k..]);
  }

  lemma OneMoreNode(nodes: seq<Node>, k: nat, item: Node)
    requires k <= |nodes| && Distinct(nodes + [item])
    ensures var more := InsertAt(nodes, k, item);
      Distinct(more) && Footprint(more) == Footprint(nodes + [item])
      && forall n :: n in more <==> n in nodes || n == item
    ensures forall n :: n in nodes + [item] <==> n in nodes || n == item
  {
    hide Distinct;
    var all, more := nodes + [item], InsertAt(nodes, k, item);
    assert forall n :: n in all <==> n in nodes || n == item;
    assert forall i :: 0 <= i < |nodes| ==> nodes[i] == more[if i < k then i else i + 1];
    InsertedIsDistinct(nodes, k, item);
  }

  lemma InsertedIsDistinct(nodes: seq<Node>, k: nat, item: Node)
    requires k <= |nodes| && Distinct(nodes + [item])
    ensures Distinct(InsertAt(nodes, k, item))
  {
    var all, more := nodes + [item], InsertAt(nodes, k, item);
    forall i, j | 0 <= i < j < |more| ensures more[i] != more[j] {
      assert more[i] == all[if i < k then i else if i == k then |nodes| else i - 1];
      assert more[j] == all[if j < k then j else if j == k then |nodes| else j - 1];
    }
  }

  lemma CanInsert(parent: Node, k: nat, item: Node)
    requires parent.Valid() && IsContainer(parent.kind) && CanJoin(parent, item) && k <= |parent.children|
    ensures var nodes, more := parent.children, InsertAt(parent.children, k, item);
      Family(parent, nodes + [item]) && Linked(parent.child, nodes) && Ring(nodes)
      && Suit(more, parent.kind) && TreeOf(parent.kind, more) == TreeWith(parent, k, item)
      && parent.Strings() + Footprint(more) == parent.owned + item.Share()
  {
    hide Node.Valid, Family, Linked, Ring, Footprint, TreeOf, Suit, Entries, WithEntries, EntryOf, Distinct;
    CanAppend(parent, item);
    FamilyOf(parent);
    FamilyIsFlat(parent, parent.children + [item]);
    WithOneMore(parent.kind, parent.children, k, item);
  }

  /** The links of cJSON_InsertItemInArray keep the family, now with `item`. */
  method Insert(parent: Node, after: Node, item: Node, ghost nodes: seq<Node>, ghost k: nat)
    requires Family(parent, nodes + [item]) && Linked(parent.child, nodes) && Ring(nodes)
    requires k < |nodes| && after == nodes[k]
    modifies parent`child, nodes`next, nodes`prev, item`next, item`prev
    ensures Assembled(parent, InsertAt(nodes, k, item))
  {
    hide Family, Linked, Ring, Distinct, Below, InsertAt;
    FamilyIsFlat(parent, nodes + [item]);
    assert item in nodes + [item] && forall d | d in nodes :: d in nodes + [item];
    LinkBefore(parent, after, item, nodes, k);
    FamilyInserts(parent, nodes, k, item);
  }

  lemma FamilyInserts(parent: Node, nodes: seq<Node>, k: nat, item: Node)
    requires Family(parent, nodes + [item]) && k <= |nodes|
    ensures Family(parent, InsertAt(nodes, k, item))
  {
    hide Node.Valid;
    FamilyIsFlat(parent, nodes + [item]);
    WithOneMore(parent.kind, nodes, k, item);
    FamilySub(parent, nodes + [item], InsertAt(nodes, k, item));
  }

  method AddAt(parent: Node, after: Node, item: Node, ghost k: nat)
    requires parent.Valid() && IsContainer(parent.kind) && CanJoin(parent, item)
    requires k < |parent.children| && after == parent.children[k]
    modifies parent`child, parent`children, parent`owned, parent`tree
    modifies parent.children`next, parent.children`prev, item`next, item`prev
    ensures Became(parent, InsertAt(old(parent.children), k, item), old(parent.owned + item.Share()),
        old(TreeWith(parent, k, item)))
  {
    hide Node.Valid, Assembled, Family, Linked, Ring, Footprint, TreeOf, TreeWith, CanJoin, Suit, InsertAt;
    ghost var nodes := parent.children;
    CanInsert(parent, k, item);
    ghost var more := InsertAt(nodes, k, item);
    ghost var f, t := Footprint(more), TreeOf(parent.kind, more);
    Insert(parent, after, item, nodes, k);
    assert Footprint(more) == f;
    assert TreeOf(parent.kind, more) == t;
    Adopt(parent, InsertAt(nodes, k, item));
  }

  lemma InsertLast(parent: Node, item: Node)
    requires parent.Valid() && IsContainer(parent.kind)
    ensures TreeWithLast(parent, item) == TreeWith(parent, |parent.children|, item)
    ensures parent.children + [item] == InsertAt(parent.children, |parent.children|, item)
  {
    FamilyOf(parent);
    FamilySuits(parent, parent.children);
    TreeIsEntries(parent.kind, parent.children);
  }

  /** cJSON_InsertItemInArray: at a position past the end it appends. */
  method InsertItemInArray(parent: Node?, which: int, item: Node?) returns (inserted: bool)
    requires parent != null ==> parent.Valid()
    requires parent != null && item != null && which >= 0 ==>
      (if parent == item then |parent.children| <= which
       else IsContainer(parent.kind) && CanJoin(parent, item) && (0 < |parent.children| <= which ==> item.next == null))
    modifies One(parent)`child, One(parent)`children, One(parent)`owned, One(parent)`tree
    modifies Kids(parent)`next, Kids(parent)`prev, One(item)`next, One(item)`prev
    ensures inserted <==> which >= 0 && item != null && parent != null && parent != item
    ensures inserted ==>
      var k := Min(which, |old(parent.children)|);
      Became(parent, InsertAt(old(parent.children), k, item), old(parent.owned + item.Share()),
          old(TreeWith(parent, k, item)))
  {
    hide Node.Valid, Became, TreeWith, TreeWithLast, CanJoin, InsertAt;
    if which < 0 || item == null {
      return false;
    }
    var after := ArrayItem(parent, which);
    if after == null {
      if parent != null && parent != item {
        InsertLast(parent, item);
      }
      inserted := AddItemToArray(parent, item);
      return;
    }
    if after != parent.child && after.prev == null {
      ChildHasPrev(parent, after);
      return false;
    }
    AddAt(parent, after, item, which);
    return true;
  }

  ghost function TreeReplaced(parent: Node, k: nat, item: Node): J
    reads parent, item`key, item`tree, item.key
  {
    Exchanged(parent.kind, parent.tree, k, EntryOf(parent.kind, item))
  }

  /** What a list with one node exchanged stands for. */
  lemma WithOther(kind: Kind, nodes: seq<Node>, k: nat, item: Node)
    requires IsContainer(kind) && Suit(nodes + [item], kind) && k < |nodes| && Distinct(nodes + [item])
      && Apart(nodes + [item])
    ensures var other := nodes[k := item];
      Suit(other, kind) && Suit(nodes, kind) && Distinct(other)
      && (forall n :: n in other <==> (n in nodes && n != nodes[k]) || n == item)
    ensures var other := nodes[k := item];
      Footprint(other) == Footprint(nodes) - nodes[k].Share() + item.Share() && k < |Entries(TreeOf(kind, nodes))|
      && TreeOf(kind, other) == Exchanged(kind, TreeOf(kind, nodes), k, EntryOf(kind, item))
  {
    hide TreeOf, WithEntries, Entries, EntryOf;
    var all := nodes + [item];
    var other := nodes[k := item];
    assert forall n :: n in all <==> n in nodes || n == item;
    assert forall i :: 0 <= i < |nodes| ==> nodes[i] == all[i] && (i == k || nodes[i] == other[i]);
    assert all[|nodes|] == item == other[k];
    forall n | n in all && n != nodes[k] ensures n.Share() !! nodes[k].Share() {
      SharesApart(all, n, nodes[k]);
    }
    TreeIsEntries(kind, nodes);
    SameEntries(kind, other, Entries(TreeOf(kind, nodes))[k := EntryOf(kind, item)]);
  }

  lemma CanReplace(parent: Node, k: nat, item: Node)
    requires parent.Valid() && CanJoin(parent, item) && k < |parent.children|
    ensures var nodes, other := parent.children, parent.children[k := item];
      IsContainer(parent.kind) && Family(parent, nodes + [item]) && Linked(parent.child, nodes) && Ring(nodes)
      && Suit(other, parent.kind) && TreeOf(parent.kind, other) == TreeReplaced(parent, k, item)
      && parent.Strings() + Footprint(other) == parent.owned - nodes[k].Share() + item.Share()
  {
    hide Node.Valid, Node.Ready, Family, Linked, Ring, Footprint, TreeOf, Suit, Entries, WithEntries, EntryOf;
    hide Distinct, Apart;
    IsParent(parent);
    CanAppend(parent, item);
    FamilyOf(parent);
    FamilyIsFlat(parent, parent.children + [item]);
    FamilyApart(parent, parent.children, k);
    FamilyApart(parent, parent.children + [item], k);
    WithOther(parent.kind, parent.children, k, item);
  }

  lemma FamilyExchanges(parent: Node, nodes: seq<Node>, k: nat, item: Node)
    requires Family(parent, nodes + [item]) && k < |nodes|
    ensures Family(parent, nodes[k := item]) && nodes[k].Ready()
    ensures parent !in nodes[k].Share() && forall o | o in nodes[k].owned :: allocated(o)
  {
    hide Node.Valid, Node.Ready;
    FamilyIsFlat(parent, nodes + [item]);
    WithOther(parent.kind, nodes, k, item);
    FamilySub(parent, nodes + [item], nodes[k := item]);
    assert (nodes + [item])[k] == nodes[k];
    ValidParts(nodes[k]);
  }

  /** The links of cJSON_ReplaceItemViaPointer keep the family, with `replacement` for `item`. */
  method Exchange(parent: Node, item: Node, replacement: Node, ghost nodes: seq<Node>, ghost k: nat)
    requires Family(parent, nodes + [replacement]) && Linked(parent.child, nodes) && Ring(nodes)
    requires k < |nodes| && item == nodes[k]
    modifies parent`child, nodes`next, nodes`prev, replacement`next, replacement`prev
    ensures Assembled(parent, nodes[k := replacement])
    ensures item.Ready() && item.next == null && item.prev == null
    ensures parent !in item.Share() && forall o | o in item.owned :: allocated(o)
  {
    hide Family, Linked, Ring, Distinct, Below;
    FamilyIsFlat(parent, nodes + [replacement]);
    assert replacement in nodes + [replacement] && forall d | d in nodes :: d in nodes + [replacement];
    LinkInstead(parent, item, replacement, nodes, k);
    FamilyExchanges(parent, nodes, k, replacement);
  }

  method Substitute(parent: Node, item: Node, replacement: Node, ghost k: nat)
    requires parent.Valid() && CanJoin(parent, replacement) && k < |parent.children| && item == parent.children[k]
    modifies parent`child, parent`children, parent`owned, parent`tree
    modifies parent.children`next, parent.children`prev, replacement`next, replacement`prev
    ensures Became(parent, old(parent.children)[k := replacement],
                   old(parent.owned - item.Share() + replacement.Share()), old(TreeReplaced(parent, k, replacement)))
    ensures item.Ready() && item.next == null && item.prev == null && item.owned == old(item.owned)
    ensures item.Share() <= old(parent.owned)
  {
    hide Node.Valid, Node.Ready, Assembled, Family, Linked, Ring, Footprint, TreeOf, TreeReplaced, CanJoin, Suit;
    ghost var nodes := parent.children;
    CanReplace(parent, k, replacement);
    ChildIsBelow(parent, item);
    ghost var other := nodes[k := replacement];
    ghost var f, t := Footprint(other), TreeOf(parent.kind, other);
    Exchange(parent, item, replacement, nodes, k);
    assert Footprint(other) == f;
    assert TreeOf(parent.kind, other) == t;
    Adopt(parent, other);
  }

  lemma SingleForest(item: Node)
    requires item.Ready() && item.next == null
    ensures Forest(item, [item]) && Footprint([item]) == item.Share()
  {
    assert [item][0] == item;
  }

  /** Deletes one tree that is in no list. */
  method DeleteTree(item: Node, hooks: Allocator)
    requires item.Ready() && item.next == null && item.Share() <= hooks.live && hooks !in item.Share()
    modifies hooks`live
    ensures hooks.live == old(hooks.live) - old(item.Share())
  {
    hide Node.Ready, Forest, Footprint;
    SingleForest(item);
    Delete(item, [item], item.Share(), hooks);
  }

  /** cJSON_ReplaceItemViaPointer: the child is exchanged, and freed with all it owns. */
  method ReplaceItemViaPointer(parent: Node?, item: Node?, replacement: Node?, a: Allocator) returns (replaced: bool)
    requires parent != null && parent.child != null && replacement != null && item != null && replacement != item ==>
      parent.Valid() && item in parent.children && CanJoin(parent, replacement)
      && item.Share() <= a.live && a !in parent.Share() && a !in replacement.Share()
    modifies One(parent)`child, One(parent)`children, One(parent)`owned, One(parent)`tree
    modifies Kids(parent)`next, Kids(parent)`prev, One(replacement)`next, One(replacement)`prev, a`live
    ensures replaced <==> parent != null && old(parent.child) != null && replacement != null && item != null
    ensures replaced && replacement == item ==>
      unchanged(parent`child, parent`children, parent`owned, parent`tree, a`live, item)
      && unchanged(old(parent.children)`next, old(parent.children)`prev)
    ensures replaced && replacement != item ==>
      var k := IndexOf(old(parent.children), item);
      Became(parent, old(parent.children)[k := replacement],
             old(parent.owned - item.Share() + replacement.Share()), old(TreeReplaced(parent, k, replacement)))
      && a.live == old(a.live - item.Share())
  {
    hide Node.Valid, Node.Ready, TreeReplaced, CanJoin, Forest, Footprint;
    if parent == null || parent.child == null || replacement == null || item == null {
      return false;
    }
    if replacement == item {
      return true;
    }
    ghost var k := IndexOf(parent.children, item);
    Substitute(parent, item, replacement, k);
    DeleteTree(item, a);
    return true;
  }
}
