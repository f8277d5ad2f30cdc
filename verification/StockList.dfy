/** The object of the global inventory: number entries under the names of their items. Levels are stored
    into `valuedouble` alone, so that the integers beside them may be stale. */
module StockList {
  import opened Bytes
  import opened Json
  import opened Numbers
  import opened Nodes
  import opened Lists
  import opened TreeEdits
  import opened Chains

  /** A number under a name. */
  ghost predicate Entry(n: Node)
    reads n`kind, n`valuestring, n`key, n`child, n`children, n`owned, n.key
  {
    n.kind == IsNumber && n.valuestring == null && n.child == null && n.children == []
    && n.key != null && IsText(n.key) && n.owned == {n.key}
  }

  /** An object of such entries. */
  ghost predicate Listing(root: Node)
    reads root`kind, root`valuestring, root`key, root`child, root`children, root`owned
    reads root.children`kind, root.children`valuestring, root.children`key, root.children`child, root.children`children
    reads root.children`owned, root.children`next, root.children`prev, set n | n in root.children :: n.key
  {
    var nodes := root.children;
    root.kind == IsObject && root.valuestring == null && root.key == null
    && Linked(root.child, nodes) && Ring(nodes) && Apart(nodes) && (forall n | n in nodes :: Entry(n))
    && root.owned == Footprint(nodes) && root !in root.owned
  }

  /** The same, by what the root owns. */
  ghost predicate OwnListing(root: Node)
    reads root, root.owned
  {
    (forall n | n in root.children :: n in root.owned && n.key in root.owned) && Listing(root)
  }

  /** An entry for an item, and the level it stands for. */
  ghost predicate Holds(n: Node, item: int, level: int)
    reads n`key, n`valuedouble, n.key
  {
    n.key != null && TextOf(n.key) == IntText(item) && n.valuedouble == level as real
  }

  /** One entry for each item. */
  ghost predicate Tallied(nodes: seq<Node>, items: seq<int>, stock: map<int, int>)
    reads nodes`key, nodes`valuedouble, set n | n in nodes :: n.key
  {
    |items| == |nodes| && Indexed(items, stock)
    && forall k :: 0 <= k < |items| ==> Holds(nodes[k], items[k], stock[items[k]])
  }

  /** The items of a stock, each once. */
  ghost predicate Indexed(items: seq<int>, stock: map<int, int>) {
    (forall i, k :: 0 <= i < k < |items| ==> items[i] != items[k])
    && (forall item :: item in stock <==> item in items)
    && forall k :: 0 <= k < |items| ==> items[k] in stock
  }

  lemma TalliedChanged(nodes: seq<Node>, items: seq<int>, stock: map<int, int>, k: nat, level: int)
    requires |items| == |nodes| && k < |items| && Indexed(items, stock) && Holds(nodes[k], items[k], level)
    requires forall i :: 0 <= i < |items| && i != k ==> Holds(nodes[i], items[i], stock[items[i]])
    ensures Tallied(nodes, items, stock[items[k] := level])
  {
    hide Holds;
  }

  lemma NoneTallied()
    ensures Tallied([], [], map[])
  {
  }

  lemma TalliedMore(nodes: seq<Node>, items: seq<int>, stock: map<int, int>, n: Node, item: int, level: int)
    requires Tallied(nodes, items, stock) && item !in stock && Holds(n, item, level)
    ensures Tallied(nodes + [n], items + [item], stock[item := level])
  {
    hide Holds;
    assert forall i | i in items + [item] :: i in items || i == item;
  }

  lemma ListingParts(root: Node)
    requires Listing(root)
    ensures forall n | n in root.children :: allocated(n) && n in root.owned && Entry(n)
    ensures forall n | n in root.children :: n.key != null && allocated(n.key) && n.key in root.owned && IsText(n.key)
    ensures root !in root.children && root.owned == Footprint(root.children) && root !in root.owned
    ensures Linked(root.child, root.children) && Ring(root.children) && Apart(root.children)
    ensures root.kind == IsObject && root.valuestring == null && root.key == null
  {
    forall n | n in root.children ensures n in root.owned && n.key in root.owned {
      assert n in n.Share() && n.key in n.Share();
    }
  }

  lemma ListingIsOwned(root: Node)
    ensures Listing(root) <==> OwnListing(root)
  {
    hide Listing, Entry;
    if Listing(root) {
      ListingParts(root);
    }
  }

  lemma EmptyListing(root: Node)
    requires root.Valid() && root.kind == IsObject && root.tree == Obj([]) && root.key == null
    ensures Listing(root) && root.children == []
  {
    ValidTree(root);
    assert root.Ready();
    NoFootprint();
  }

  /** A new number becomes an entry once it has a name. */
  lemma NumberIsEntry(item: Node)
    requires item.Valid() && item.kind == IsNumber && item.key == null
    ensures item.valuestring == null && item.child == null && item.children == [] && item.owned == {}
  {
    assert item.Ready();
    NoFootprint();
  }

  /** The entries with one more. */
  lemma ListingGrows(nodes: seq<Node>, item: Node)
    requires Apart(nodes) && item !in Footprint(nodes) && item.owned !! Footprint(nodes)
    ensures Apart(nodes + [item]) && Footprint(nodes + [item]) == Footprint(nodes) + item.Share()
    ensures Distinct(nodes + [item]) && forall n | n in nodes :: n in Footprint(nodes)
  {
    FootprintJoins(nodes, item);
    ApartJoins(nodes, item);
    ApartIsDistinct(nodes + [item]);
  }

  /** The listing after its nodes have been linked. */
  lemma Relisted(root: Node, nodes: seq<Node>, item: Node)
    requires root.kind == IsObject && root.valuestring == null && root.key == null
    requires root.children == nodes + [item] && root.owned == Footprint(nodes) + item.Share()
    requires Linked(root.child, nodes + [item]) && Ring(nodes + [item])
    requires Apart(nodes + [item]) && Footprint(nodes + [item]) == Footprint(nodes) + item.Share()
    requires Entry(item) && (forall n | n in nodes :: Entry(n)) && root !in root.owned
    ensures Listing(root)
  {
    hide Entry, Linked, Ring, Apart, Footprint;
  }

  /** The new name of a number. */
  method NameEntry(item: Node, newKey: array<byte>)
    requires item.Valid() && item.kind == IsNumber && item.key == null && IsText(newKey)
    modifies item`key, item`owned
    ensures Entry(item) && item.key == newKey && item.owned == {newKey}
  {
    hide Node.Valid, IsText, CString;
    NumberIsEntry(item);
    item.key := newKey;
    item.owned := {newKey};
  }

  /** The links of a new entry. */
  method LinkEntry(root: Node, item: Node)
    requires Listing(root) && Entry(item) && item.next == null && root.Share() !! item.Share()
    modifies root`child, root`children, root`owned, root.children`next, root.children`prev, item`next, item`prev
    ensures Listing(root) && root.children == old(root.children) + [item]
    ensures root.owned == old(root.owned) + item.Share() && item.key != null
  {
    hide IsText, CString, Linked, Ring, Apart, Footprint, Distinct, Entry, Listing;
    ListingParts(root);
    EntryParts(item);
    ghost var nodes := root.children;
    ListingGrows(nodes, item);
    LinkLast(root, item, nodes);
    root.children := nodes + [item];
    root.owned := root.owned + item.Share();
    Relisted(root, nodes, item);
  }

  lemma EntryParts(n: Node)
    requires Entry(n)
    ensures n.key != null && IsText(n.key) && n.owned == {n.key} && n !in n.owned
  {
  }

  /** The part of adding an entry that cannot fail. */
  method Enter(root: Node, item: Node, newKey: array<byte>)
    requires Listing(root) && IsText(newKey) && newKey !in root.owned && item.Valid() && item.kind == IsNumber
    requires item.key == null && item.next == null && root.Share() !! item.Share()
    modifies root`child, root`children, root`owned, root.children`next, root.children`prev
    modifies item`next, item`prev, item`key, item`owned
    ensures Listing(root) && root.children == old(root.children) + [item] && item.key == newKey
    ensures item.owned == {newKey} && root.owned == old(root.owned) + item.Share()
  {
    hide Node.Valid, IsText, CString, Listing, Entry, Linked, Ring, Apart, Footprint;
    ListingParts(root);
    NameEntry(item, newKey);
    EntryParts(item);
    LinkEntry(root, item);
  }

  /** cJSON_AddItemToObject for a new number. The name is copied; without memory for it nothing changes. */
  method AddEntry(root: Node, name: array<byte>, item: Node, hooks: Allocator) returns (added: bool)
    requires Listing(root) && IsText(name) && item.Valid() && item.kind == IsNumber
    requires item.key == null && item.next == null && root.Share() !! item.Share()
    requires hooks !in root.Share() + item.Share()
    modifies root`child, root`children, root`owned, root.children`next, root.children`prev
    modifies item`next, item`prev, item`key, item`owned, hooks
    ensures (old(hooks.failed) ==> hooks.failed) && Listing(root)
    ensures added ==>
      root.children == old(root.children) + [item]
      && item.key != null && fresh(item.key) && item.owned == {item.key}
      && root.owned == old(root.owned) + item.Share() && hooks.live == old(hooks.live) + {item.key}
      && TextOf(item.key) == TextOf(name)
    ensures !added ==> hooks.failed && hooks.live == old(hooks.live) && unchanged(root) && unchanged(item)
  {
    hide Node.Valid, IsText, CString, Listing, Entry, Linked, Ring, Apart, Footprint;
    ListingParts(root);
    var newKey := Strdup(name, hooks);
    if newKey == null {
      return false;
    }
    Enter(root, item, newKey);
    return true;
  }
}
