/** The inventory manager: the global inventory and those of the clients are trees of nodes of its own. */
module Inventory {
  import opened Bytes
  import opened Json
  import opened Numbers
  import opened Compare
  import opened Nodes
  import opened TreeEdits
  import opened Chains
  import opened Builders
  import opened Duplicates
  import opened Lookups
  import opened Stock
  import opened StockList

  lemma TextKeepsCase(n: int)
    ensures Fold(IntText(n), false) == IntText(n)
  {
    DecimalText(n);
  }

  lemma DecimalText(n: int)
    ensures forall i :: 0 <= i < |IntText(n)| ==> IsDigit(IntText(n)[i]) || IntText(n)[i] == MINUS
  {
  }

  /** Different items have different names, also when case is ignored. */
  lemma NamesAreDistinct(a: int, b: int)
    requires Fold(IntText(a), false) == Fold(IntText(b), false)
    ensures a == b
  {
    TextKeepsCase(a);
    TextKeepsCase(b);
    StrtodOfInt(a);
    StrtodOfInt(b);
  }

  lemma IntTextIsNulFree(n: int)
    ensures NulFree(IntText(n))
  {
    DecimalText(n);
  }

  // ---- what the loops over an inventory do ----

  /** The quantities of number entries are ints, and only members of objects are number entries. */
  predicate Tallies(inventory: J) {
    match inventory
    case Obj(ms) => forall m | m in ms && m.value.Num? :: Castable(m.value.valuedouble)
    case Arr(xs) => forall x | x in xs :: !x.Num?
    case _ => true
  }

  /** Truncation of the double is an int. */
  predicate Castable(v: real) {
    INT_MIN as real - 1.0 < v < INT_MAX as real + 1.0
  }

  /** What the loop adds to its amounts at child `i`, unless it throws there. */
  function Seen(m: Member): seq<(int, int)> {
    if m.value.Num? && Stoi(m.key).Some? then [(Stoi(m.key).value, ValueInt(m.value.valuedouble))] else []
  }

  lemma NextChild(children: seq<Member>, i: nat)
    requires i < |children|
    ensures Throws(children[i..]) == (Unreadable(children[i]) || Throws(children[i + 1..]))
    ensures Amounts(children[i..])
      == if Unreadable(children[i]) then [] else Seen(children[i]) + Amounts(children[i + 1..])
  {
    hide Stoi;
    assert children[i..][1..] == children[i + 1..];
  }

  /** After the first `i` entries the loop has done `done`. */
  predicate Walked(entries: seq<Member>, i: nat, done: seq<(int, int)>) {
    i <= |entries| && done + Amounts(entries[i..]) == Amounts(entries) && Throws(entries[i..]) == Throws(entries)
  }

  lemma WalkStarts(entries: seq<Member>)
    ensures Walked(entries, 0, [])
  {
    assert entries[0..] == entries && [] + Amounts(entries) == Amounts(entries);
  }

  /** The loop goes on, or ends with the exception. */
  lemma WalkGoesOn(entries: seq<Member>, i: nat, done: seq<(int, int)>)
    requires Walked(entries, i, done) && i < |entries|
    ensures if Unreadable(entries[i]) then Throws(entries) && done == Amounts(entries)
      else Walked(entries, i + 1, done + Seen(entries[i]))
  {
    hide Amounts, Throws, Unreadable, Seen;
    NextChild(entries, i);
    Joined(done, Seen(entries[i]), Amounts(entries[i + 1..]));
  }

  lemma Joined(a: seq<(int, int)>, b: seq<(int, int)>, c: seq<(int, int)>)
    ensures a + (b + c) == a + b + c && a + [] == a
  {
  }

  lemma WalkEnds(entries: seq<Member>, done: seq<(int, int)>)
    requires Walked(entries, |entries|, done)
    ensures !Throws(entries) && done == Amounts(entries)
  {
    assert entries[|entries|..] == [];
  }

  /** Entries that are no numbers are not seen and do not throw. */
  lemma {:induction false} NoAmounts(ms: seq<Member>)
    requires forall m | m in ms :: !m.value.Num?
    ensures Amounts(ms) == [] && !Throws(ms)
  {
    if ms != [] {
      assert ms[0] in ms && forall m | m in ms[1..] :: m in ms;
      NoAmounts(ms[1..]);
    }
  }

  lemma EntriesCount(inventory: J)
    requires Tallies(inventory)
    ensures Amounts(Entries(inventory)) == Contents(Some(inventory))
    ensures Throws(Entries(inventory)) == Throws(Listed(Some(inventory)))
  {
    if !inventory.Obj? {
      NoAmounts(Entries(inventory));
    }
  }

  /** Where the loops begin. */
  lemma InventoryBegins(inventory: Node)
    requires inventory.Valid()
    ensures |Entries(inventory.tree)| == |inventory.children|
    ensures inventory.child == if inventory.children == [] then null else inventory.children[0]
  {
    hide Node.Valid, CString;
    ValidTree(inventory);
    ChildrenLinked(inventory);
    FirstOf(inventory.child, inventory.children);
  }

  /** A child of an inventory: a number has a name. */
  lemma AtChild(inventory: Node, k: nat)
    requires inventory.Valid() && Tallies(inventory.tree) && k < |inventory.children|
    ensures k < |Entries(inventory.tree)|
    ensures var c, e := inventory.children[k], Entries(inventory.tree)[k];
      (c.kind == IsNumber <==> e.value.Num?)
      && (c.kind == IsNumber ==> c.key != null && e.key == TextOf(c.key) && e.value.valuedouble == c.valuedouble)
    ensures inventory.children[k].next == if k + 1 < |inventory.children| then inventory.children[k + 1] else null
    ensures allocated(inventory.children[k]) && inventory.children[k] in inventory.owned
  {
    hide Node.Valid, CString, Stoi, ValueInt;
    var c := inventory.children[k];
    ChildrenLinked(inventory);
    NextOf(inventory.child, inventory.children, k);
    ChildParts(inventory, k);
    ChildIsBelow(inventory, c);
    ValidTree(inventory);
    ValidTree(c);
    if inventory.kind == IsArray {
      assert inventory.tree.elements[k] in inventory.tree.elements;
    } else {
      assert inventory.tree.members[k] in inventory.tree.members;
    }
  }

  // ---- events one after another ----

  lemma {:induction false} OneMoreEvent(stock: map<int, int>, es: seq<Event>, e: Event)
    ensures ApplyAll(stock, es + [e]) == Apply(ApplyAll(stock, es), e)
    decreases es
  {
    hide Apply;
    if es == [] {
      assert [] + [e] == [e] && [e][1..] == [];
    } else {
      assert (es + [e])[1..] == es[1..] + [e];
      OneMoreEvent(Apply(stock, es[0]), es[1..], e);
    }
  }

  lemma {:induction false} OneMoreInc(done: seq<(int, int)>, memory: seq<bool>, a: (int, int), m: bool)
    requires |done| == |memory|
    ensures Incs(done + [a], memory + [m]) == Incs(done, memory) + [Inc(a.0, a.1, m)]
  {
    if done == [] {
      assert [] + [a] == [a] && memory + [m] == [m] && [a][1..] == [];
    } else {
      assert (done + [a])[1..] == done[1..] + [a] && (memory + [m])[1..] == memory[1..] + [m];
      OneMoreInc(done[1..], memory[1..], a, m);
    }
  }

  lemma {:induction false} OneMoreDec(done: seq<(int, int)>, a: (int, int))
    ensures Decs(done + [a]) == Decs(done) + [Dec(a.0, a.1)]
  {
    if done == [] {
      assert [] + [a] == [a] && [a][1..] == [];
    } else {
      assert (done + [a])[1..] == done[1..] + [a];
      OneMoreDec(done[1..], a);
    }
  }

  /** The increases so far, and one more. */
  lemma Increased(stock: map<int, int>, done: seq<(int, int)>, memory: seq<bool>, a: (int, int), m: bool)
    requires |done| == |memory|
    ensures ApplyAll(stock, Incs(done + [a], memory + [m]))
      == Apply(ApplyAll(stock, Incs(done, memory)), Inc(a.0, a.1, m))
  {
    hide Apply, ApplyAll;
    OneMoreInc(done, memory, a, m);
    OneMoreEvent(stock, Incs(done, memory), Inc(a.0, a.1, m));
  }

  lemma Decreased(stock: map<int, int>, done: seq<(int, int)>, a: (int, int))
    ensures ApplyAll(stock, Decs(done + [a])) == Apply(ApplyAll(stock, Decs(done)), Dec(a.0, a.1))
  {
    hide Apply, ApplyAll;
    OneMoreDec(done, a);
    OneMoreEvent(stock, Decs(done), Dec(a.0, a.1));
  }

  // ---- the inventories of the clients ----

  /** The roots of the inventories. */
  ghost function Heads(clients: map<int, Node?>): set<Node> {
    set id | id in clients && clients[id] != null :: clients[id]
  }

  /** Everything some trees are made of. */
  ghost function Goods(heads: set<Node>): set<object>
    reads heads`owned
  {
    set n, o | n in heads && o in n.Share() :: o
  }

  /** Whole trees that share nothing, in no list. */
  ghost predicate Separate(clients: map<int, Node?>)
    reads Heads(clients), Goods(Heads(clients))
  {
    GoodsHold(Heads(clients));
    (forall n | n in Heads(clients) :: n.Valid() && n.next == null) && Disjoint(clients)
  }

  ghost predicate Disjoint(clients: map<int, Node?>)
    reads Heads(clients)`owned
  {
    forall i, k | i in clients && k in clients && i != k && clients[i] != null && clients[k] != null ::
      clients[i].Share() !! clients[k].Share()
  }

  lemma GoodsHold(heads: set<Node>)
    ensures forall n | n in heads :: n in Goods(heads) && n.Share() <= Goods(heads)
  {
    assert forall n | n in heads :: n in n.Share();
  }

  lemma GoodsWith(heads: set<Node>, n: Node)
    ensures Goods(heads + {n}) == Goods(heads) + n.Share()
  {
    var more := heads + {n};
    assert forall o | o in n.Share() :: n in more && o in Goods(more);
    assert forall o | o in Goods(heads) :: o in Goods(more);
    assert forall o | o in Goods(more) :: o in Goods(heads) || o in n.Share();
  }

  ghost function Values(clients: map<int, Node?>): map<int, Option<J>>
    reads Heads(clients)`tree
  {
    map id | id in clients :: TreeAt(clients[id])
  }

  /** The inventory of a client, null also for one that is not there. */
  ghost function Of(clients: map<int, Node?>, id: int): Node? {
    if id in clients then clients[id] else null
  }

  lemma HeadsWith(clients: map<int, Node?>, id: int, n: Node?)
    requires id !in clients
    ensures Heads(clients[id := n]) == Heads(clients) + One(n)
  {
    var more := clients[id := n];
    assert forall i | i in clients :: more[i] == clients[i];
    assert forall h | h in Heads(clients) :: h in Heads(more);
    assert more[id] == n;
  }

  /** A new client with an inventory of its own. */
  lemma WithClient(clients: map<int, Node?>, id: int, n: Node?)
    requires Separate(clients) && id !in clients && Whole(n) !! Goods(Heads(clients))
    requires n != null ==> n.Valid() && n.next == null
    ensures Separate(clients[id := n]) && Goods(Heads(clients[id := n])) == Goods(Heads(clients)) + Whole(n)
    ensures Values(clients[id := n]) == Values(clients)[id := TreeAt(n)]
  {
    hide Node.Valid, Goods, Heads;
    var more := clients[id := n];
    HeadsWith(clients, id, n);
    HeadsAre(clients);
    GoodsHold(Heads(clients));
    if n == null {
      assert Heads(clients) + One(n) == Heads(clients);
    } else {
      GoodsWith(Heads(clients), n);
    }
    assert forall i | i in clients :: more[i] == clients[i];
  }

  lemma HeadsAre(clients: map<int, Node?>)
    ensures forall i | i in clients && clients[i] != null :: clients[i] in Heads(clients)
  {
  }

  /** A client leaves, with what is its own. */
  lemma WithoutClient(clients: map<int, Node?>, id: int)
    requires Separate(clients) && id in clients
    ensures Separate(clients - {id}) && Goods(Heads(clients - {id})) == Goods(Heads(clients)) - Whole(clients[id])
    ensures Whole(clients[id]) <= Goods(Heads(clients))
    ensures clients[id] != null ==> clients[id].Valid() && clients[id].next == null
    ensures Values(clients - {id}) == Values(clients) - {id}
  {
    hide Node.Valid, Goods, Heads;
    var less := clients - {id};
    assert clients == less[id := clients[id]];
    HeadsWith(less, id, clients[id]);
    LessIsSeparate(clients, id);
    HeadsAre(clients);
    GoodsHold(Heads(clients));
    if clients[id] == null {
      assert Heads(less) + One(clients[id]) == Heads(less);
    } else {
      GoodsWith(Heads(less), clients[id]);
      OthersApart(clients, id);
    }
    SameKeys(clients);
    SameKeys(less);
  }

  lemma LessIsSeparate(clients: map<int, Node?>, id: int)
    requires Separate(clients) && id in clients
    ensures Separate(clients - {id})
  {
    hide Node.Valid, Goods;
    var less := clients - {id};
    assert forall n | n in Heads(less) :: n in Heads(clients);
  }

  lemma OthersApart(clients: map<int, Node?>, id: int)
    requires Disjoint(clients) && id in clients && clients[id] != null
    ensures Goods(Heads(clients - {id})) !! clients[id].Share()
  {
    forall o | o in Goods(Heads(clients - {id})) ensures o !in clients[id].Share() {
      var n :| n in Heads(clients - {id}) && o in n.Share();
      var i :| i in clients && i != id && clients[i] == n;
    }
  }

  lemma SameKeys(clients: map<int, Node?>)
    ensures Values(clients).Keys == clients.Keys
    ensures forall id | id in clients :: Values(clients)[id] == TreeAt(clients[id])
  {
  }

  lemma Nothing(stock: map<int, int>)
    ensures ApplyAll(stock, []) == ApplyAll(stock, Incs([], [])) == ApplyAll(stock, Decs([])) == stock
    ensures Contents(None) == [] && Listed(None) == [] && Amounts([]) == [] && !Throws([])
  {
  }

  class InventoryManager {
    const hooks: Allocator
    var globalInventory: Node?
    var clientInventories: map<int, Node?>

    /** The item each entry of the global inventory is for, and the level it stands for. */
    ghost var items: seq<int>
    ghost var stock: map<int, int>

    /** One entry for each item, in a list of the manager's own. Without a list an allocation has failed. */
    ghost predicate Booked()
      reads this`globalInventory, this`items, this`stock, hooks, One(globalInventory)
      reads if globalInventory == null then {} else globalInventory.owned
    {
      var g := globalInventory;
      if g == null then items == [] && stock == map[] && hooks.failed
      else
        OwnListing(g) && g.Share() <= hooks.live && hooks !in g.Share() && this !in g.Share()
        && Tallied(g.children, items, stock)
    }

    /** The inventories are allocated, and apart from one another and from the manager. */
    ghost predicate Valid()
      reads this, hooks, One(globalInventory), Heads(clientInventories), Goods(Heads(clientInventories))
      reads if globalInventory == null then {} else globalInventory.owned
    {
      Booked() && Stocked(clientInventories) && Whole(globalInventory) !! Goods(Heads(clientInventories))
    }

    ghost predicate Stocked(clients: map<int, Node?>)
      reads hooks`live, Heads(clients), Goods(Heads(clients))
    {
      Separate(clients) && Goods(Heads(clients)) <= hooks.live
      && this !in Goods(Heads(clients)) && hooks !in Goods(Heads(clients))
    }

    ghost function State(): Store
      reads this`stock, this`clientInventories, Heads(clientInventories)`tree
    {
      Store(stock, Values(clientInventories))
    }

    constructor (hooks: Allocator)
      modifies hooks
      ensures Valid() && State() == EMPTY && this.hooks == hooks && clientInventories == map[]
      ensures (old(hooks.failed) ==> hooks.failed)
      ensures fresh(Whole(globalInventory)) && hooks.live == old(hooks.live) + Whole(globalInventory)
    {
      hide Node.Valid, Listing, Tallied, InventoryManager.Booked;
      this.hooks := hooks;
      globalInventory, clientInventories, items, stock := null, map[], [], map[];
      new;
      var g := CreateObject(hooks);
      NoneTallied();
      if g != null {
        EmptyListing(g);
      }
      globalInventory := g;
      Rebooked();
    }

    /** What is known of the global inventory. */
    lemma BookParts()
      requires Booked()
      ensures allocated(hooks) && forall o | o in Whole(globalInventory) :: allocated(o) && o != this && o != hooks
      ensures forall o | o in One(globalInventory) :: allocated(o)
      ensures Whole(globalInventory) <= hooks.live
      ensures globalInventory == null ==> items == [] && stock == map[] && hooks.failed
      ensures globalInventory != null ==>
        Listing(globalInventory) && Searchable(globalInventory) && Tallied(globalInventory.children, items, stock)
    {
      hide Tallied;
      if globalInventory != null {
        ListingIsOwned(globalInventory);
        ListingParts(globalInventory);
      }
    }

    lemma Rebooked()
      requires Whole(globalInventory) <= hooks.live && this !in Whole(globalInventory)
        && hooks !in Whole(globalInventory)
      requires globalInventory == null ==> items == [] && stock == map[] && hooks.failed
      requires globalInventory != null ==>
        Listing(globalInventory) && Tallied(globalInventory.children, items, stock)
      ensures Booked()
    {
      hide Tallied;
      if globalInventory != null {
        ListingIsOwned(globalInventory);
      }
    }

    /** cJSON_GetObjectItem on the global inventory: the item's entry. */
    method Search(itemID: int) returns (item: Node?, ghost k: nat)
      requires Booked() && globalInventory != null
      ensures k <= |items| == |globalInventory.children| && (k < |items| <==> itemID in stock)
      ensures item == if k < |items| then globalInventory.children[k] else null
      ensures k < |items| ==> items[k] == itemID && item in globalInventory.owned
    {
      hide Booked, Listing, Tallied, IntText, CString, IsText, Fold, Holds, Searchable, FirstStop, Named;
      hide Linked, Ring, Apart, Footprint, Entry;
      IntTextIsNulFree(itemID);
      BookParts();
      var key := NewText(IntText(itemID));
      BookParts();
      item, k := ObjectItem(globalInventory, key, false);
      EntryFound(k, itemID);
      ListingParts(globalInventory);
    }

    /** The search stops at the entry of the item. */
    lemma EntryFound(k: nat, itemID: int)
      requires Booked() && globalInventory != null
      requires FirstStop(globalInventory.children, k, IntText(itemID), false)
      ensures k <= |items| == |globalInventory.children| && (k < |items| <==> itemID in stock)
      ensures Named(globalInventory.children, k) == if k < |items| then globalInventory.children[k] else null
      ensures k < |items| ==> items[k] == itemID
    {
      hide Booked, Listing, IntText, CString, IsText, Fold, Searchable;
      BookParts();
      var nodes := globalInventory.children;
      forall i | 0 <= i < |nodes|
        ensures nodes[i].key != null && (Stops(nodes[i], IntText(itemID), false) <==> items[i] == itemID)
      {
        assert Holds(nodes[i], items[i], stock[items[i]]);
        if Stops(nodes[i], IntText(itemID), false) {
          NamesAreDistinct(items[i], itemID);
        }
      }
    }

    /** A change of the level of an entry. */
    method ChangeLevel(item: Node, change: int, ghost k: nat, ghost itemID: int)
      requires Booked() && globalInventory != null && k < |items| == |globalInventory.children|
      requires item == globalInventory.children[k] && items[k] == itemID
      modifies this`stock, item`valuedouble
      ensures itemID in old(stock) && Booked() && stock == old(stock)[itemID := old(stock)[itemID] + change]
    {
      hide Booked, Listing, Holds, CString, IsText, Linked, Ring, Apart, Footprint, Entry, Searchable;
      BookParts();
      ListingParts(globalInventory);
      LevelAt(k);
      ghost var nodes, level := globalInventory.children, stock[itemID] + change;
      Others(nodes, k);
      item.valuedouble := item.valuedouble + change as real;
      HoldsNow(item, itemID, level);
      forall i | 0 <= i < |items| && i != k ensures Holds(nodes[i], items[i], stock[items[i]]) {
        assert nodes[i] in nodes && old(Holds(nodes[i], items[i], stock[items[i]]));
      }
      TalliedChanged(nodes, items, stock, k, level);
      stock := stock[itemID := level];
      Rebooked();
    }

    lemma Others(nodes: seq<Node>, k: nat)
      requires Apart(nodes) && k < |nodes|
      ensures forall i :: 0 <= i < |nodes| && i != k ==> nodes[i] != nodes[k]
    {
      ApartIsDistinct(nodes);
    }

    lemma HoldsNow(n: Node, item: int, level: int)
      requires n.key != null && TextOf(n.key) == IntText(item) && n.valuedouble == level as real
      ensures Holds(n, item, level)
    {
    }

    /** A new entry. If there is no memory for its number nothing changes, if there is none for its name
        the number is lost. */
    method NewEntry(itemID: int, quantity: int) returns (ghost memory: bool, ghost lost: Node?)
      requires Booked() && globalInventory != null
      modifies globalInventory`child, globalInventory`children, globalInventory`owned
      modifies globalInventory.children`next, globalInventory.children`prev, hooks
      ensures Listing(globalInventory) && (old(hooks.failed) ==> hooks.failed) && (memory || hooks.failed)
      ensures old(globalInventory.owned) <= globalInventory.owned
      ensures fresh(globalInventory.owned - old(globalInventory.owned))
        && (lost != null ==> !memory && fresh(lost.Share()))
      ensures hooks.live == old(hooks.live) + (globalInventory.owned - old(globalInventory.owned)) + Whole(lost)
      ensures !memory ==> globalInventory.children == old(globalInventory.children)
      ensures memory ==>
        exists item :: globalInventory.children == old(globalInventory.children) + [item]
          && Holds(item, itemID, quantity)
    {
      hide Booked, Listing, Tallied, IntText, CString, IsText, Node.Valid, Searchable, Linked, Ring, Apart;
      hide Footprint, Entry;
      IntTextIsNulFree(itemID);
      BookParts();
      ListingParts(globalInventory);
      var key := NewText(IntText(itemID));
      var item := CreateNumber(quantity as real, hooks);
      if item == null {
        return false, null;
      }
      NumberIsEntry(item);
      var added := AddEntry(globalInventory, key, item, hooks);
      if !added {
        return false, item;
      }
      assert Holds(item, itemID, quantity);
      return true, null;
    }

    /** A new item, unless there is no memory for its entry. */
    method AddItem(itemID: int, quantity: int) returns (ghost memory: bool, ghost lost: Node?)
      requires Booked() && globalInventory != null && itemID !in stock
      modifies this`items, this`stock, Whole(globalInventory), hooks
      ensures Booked() && (old(hooks.failed) ==> hooks.failed) && (memory || hooks.failed)
      ensures old(Whole(globalInventory)) <= Whole(globalInventory)
      ensures fresh(Whole(globalInventory) - old(Whole(globalInventory)))
      ensures hooks.live == old(hooks.live) + (Whole(globalInventory) - old(Whole(globalInventory))) + Whole(lost)
      ensures lost != null ==> !memory && fresh(lost.Share())
      ensures stock == if memory then old(stock)[itemID := quantity] else old(stock)
    {
      hide Booked, Listing, Tallied, IntText, CString, IsText, Node.Valid, Searchable, Holds;
      hide Linked, Ring, Apart, Footprint, Entry;
      BookParts();
      ListingParts(globalInventory);
      ghost var nodes := globalInventory.children;
      memory, lost := NewEntry(itemID, quantity);
      if memory {
        ghost var item :| globalInventory.children == nodes + [item] && Holds(item, itemID, quantity);
        TalliedMore(nodes, items, stock, item, itemID, quantity);
        items := items + [itemID];
        stock := stock[itemID := quantity];
      }
      Rebooked();
    }

    /** increaseStock. An increase of an item that is not yet known returns true even if there is no memory
        for its entry; then nothing is recorded. */
    method IncreaseStock(itemID: int, quantity: int) returns (ok: bool, ghost memory: bool, ghost lost: Node?)
      requires Booked()
      modifies this`items, this`stock, Whole(globalInventory), hooks
      ensures Booked() && (old(hooks.failed) ==> hooks.failed) && (memory || hooks.failed)
      ensures ok == (Accepted(old(stock), Inc(itemID, quantity, memory)) && globalInventory != null)
      ensures ok == (quantity > 0 && globalInventory != null)
      ensures stock == Apply(old(stock), Inc(itemID, quantity, memory))
      ensures old(Whole(globalInventory)) <= Whole(globalInventory)
      ensures fresh(Whole(globalInventory) - old(Whole(globalInventory)))
      ensures hooks.live == old(hooks.live) + (Whole(globalInventory) - old(Whole(globalInventory))) + Whole(lost)
      ensures lost != null ==> !memory && fresh(lost.Share())
    {
      hide OwnListing, Tallied, IntText, Holds;
      memory, lost := true, null;
      if globalInventory == null {
        return false, false, null;
      }
      if quantity <= 0 {
        return false, true, null;
      }
      var item;
      ghost var k;
      item, k := Search(itemID);
      if item == null {
        memory, lost := AddItem(itemID, quantity);
      } else {
        ChangeLevel(item, quantity, k, itemID);
      }
      return true, memory, lost;
    }

    lemma LevelAt(k: nat)
      requires Booked() && globalInventory != null && k < |items| == |globalInventory.children|
      ensures var n := globalInventory.children[k];
        items[k] in stock && n.valuedouble == stock[items[k]] as real
        && n.key != null && TextOf(n.key) == IntText(items[k])
    {
      hide Listing, Searchable, IntText;
      BookParts();
      assert Holds(globalInventory.children[k], items[k], stock[items[k]]);
    }

    /** decreaseStock. */
    method DecreaseStock(itemID: int, quantity: int) returns (ok: bool)
      requires Booked()
      modifies this`stock, Whole(globalInventory)
      ensures Booked() && ok == Accepted(old(stock), Dec(itemID, quantity))
      ensures ok == (quantity > 0 && Level(old(stock), itemID) >= quantity)
      ensures stock == Apply(old(stock), Dec(itemID, quantity))
      ensures Whole(globalInventory) == old(Whole(globalInventory))
    {
      hide OwnListing, Tallied, IntText, Holds;
      if quantity <= 0 || globalInventory == null {
        return false;
      }
      var item;
      ghost var k;
      item, k := Search(itemID);
      if item == null {
        return false;
      }
      LevelAt(k);
      if item.valuedouble < quantity as real {
        return false;
      }
      ChangeLevel(item, -quantity, k, itemID);
      return true;
    }

    /** getStockLevel, for levels that fit an int. */
    method GetStockLevel(itemID: int) returns (level: int)
      requires Booked() && INT_MIN <= Level(stock, itemID) <= INT_MAX
      ensures level == Level(stock, itemID)
    {
      hide OwnListing, Tallied, IntText, Holds;
      if globalInventory == null {
        return 0;
      }
      var item;
      ghost var k;
      item, k := Search(itemID);
      if item == null {
        return 0;
      }
      LevelAt(k);
      return ValueInt(item.valuedouble);
    }

    /** None of the inventories is made of the manager, of the allocator, or of what is allocated later. */
    lemma TheirOwn(clients: map<int, Node?>)
      requires Stocked(clients)
      ensures var heads := Heads(clients);
        (forall n | n in heads :: allocated(n) && n in Goods(heads))
        && forall o | o in Goods(heads) :: allocated(o) && o != this && o != hooks
    {
      hide Node.Valid;
      GoodsHold(Heads(clients));
    }

    /** What is known of one client's inventory. */
    lemma InventoryOf(clientID: int)
      requires Stocked(clientInventories) && clientID in clientInventories && clientInventories[clientID] != null
      ensures var n := clientInventories[clientID];
        n.Valid() && n.next == null && this !in n.Share() && hooks !in n.Share() && n.Share() <= hooks.live
        && n.Share() <= Goods(Heads(clientInventories))
    {
      hide Node.Valid, Goods;
      HeadsAre(clientInventories);
      GoodsHold(Heads(clientInventories));
    }

    /** Frees the inventory of a client. */
    method Discard(clientID: int)
      requires Stocked(clientInventories)
      modifies hooks`live
      ensures Stocked(clientInventories - {clientID})
      ensures Values(clientInventories - {clientID}) == old(Values(clientInventories)) - {clientID}
      ensures hooks.live == old(hooks.live - Whole(Of(clientInventories, clientID)))
      ensures old(Whole(Of(clientInventories, clientID))) <= old(Goods(Heads(clientInventories)))
      ensures Goods(Heads(clientInventories - {clientID})) <= old(Goods(Heads(clientInventories)))
    {
      hide Node.Valid, Separate, Values, Goods, Heads;
      SameKeys(clientInventories);
      if clientID in clientInventories {
        WithoutClient(clientInventories, clientID);
        var n := clientInventories[clientID];
        if n != null {
          TheirOwn(clientInventories - {clientID});
          InventoryOf(clientID);
          ValidIsReady(n);
          DeleteTree(n, hooks);
        }
      } else {
        assert clientInventories - {clientID} == clientInventories;
        assert Values(clientInventories) - {clientID} == Values(clientInventories);
      }
    }

    /** The inventory kept for a new client. */
    method Keep(inventory: Node?) returns (kept: Node?)
      requires inventory != null ==> inventory.Valid() && hooks !in inventory.Share()
      modifies hooks
      ensures old(hooks.failed) ==> hooks.failed
      ensures fresh(Whole(kept)) && hooks.live == old(hooks.live) + Whole(kept)
      ensures kept != null ==> kept.Valid() && kept.next == null
      ensures TreeAt(kept) == Kept(TreeAt(inventory), true) || (hooks.failed && kept == null)
    {
      hide Node.Valid, DepthOK, IsCopy;
      if inventory != null {
        kept := Duplicate(inventory, true, hooks);
        if kept != null {
          CopyParts(kept, inventory, inventory.tree);
        }
      } else {
        kept := CreateObject(hooks);
      }
    }

    /** A client that is not there gets a copy of an inventory of its own, if there is memory for it. */
    method Put(clientID: int, inventory: Node?) returns (ghost memory: bool)
      requires Stocked(clientInventories) && clientID !in clientInventories
      requires inventory != null ==> inventory.Valid() && hooks !in inventory.Share()
      modifies this`clientInventories, hooks
      ensures Stocked(clientInventories) && (old(hooks.failed) ==> hooks.failed) && (memory || hooks.failed)
      ensures clientID in clientInventories
      ensures clientInventories == old(clientInventories)[clientID := clientInventories[clientID]]
      ensures fresh(Whole(clientInventories[clientID]))
      ensures hooks.live == old(hooks.live) + Whole(clientInventories[clientID])
      ensures Goods(Heads(clientInventories))
        == old(Goods(Heads(clientInventories))) + Whole(clientInventories[clientID])
      ensures Values(clientInventories)
        == old(Values(clientInventories))[clientID := Kept(old(TreeAt(inventory)), memory)]
    {
      hide Node.Valid, Separate, Values, Goods, Heads, CopyOf;
      TheirOwn(clientInventories);
      SameKeys(clientInventories);
      var kept := Keep(inventory);
      WithClient(clientInventories, clientID, kept);
      clientInventories := clientInventories[clientID := kept];
      memory := TreeAt(kept) == Kept(TreeAt(inventory), true);
    }

    /** What a method that may add entries leaves of the memory: the list grows by new entries, and nothing
        that was allocated is freed; without a failure nothing else but `more` is new. */
    twostate predicate Grown(new more: set<object>)
      reads this, hooks, One(globalInventory)
    {
      globalInventory == old(globalInventory) && (old(hooks.failed) ==> hooks.failed)
      && old(Whole(globalInventory)) <= Whole(globalInventory)
      && (forall o | o in Whole(globalInventory) :: o in old(Whole(globalInventory)) || fresh(o))
      && old(hooks.live) <= hooks.live && fresh(hooks.live - old(hooks.live))
      && (!hooks.failed ==>
            hooks.live == old(hooks.live) + (Whole(globalInventory) - old(Whole(globalInventory))) + more)
    }

    /** An inventory that is not made of what the manager may change. */
    ghost predicate Given(inventory: Node)
      reads this`globalInventory, One(globalInventory), inventory, inventory.owned
    {
      inventory.Valid() && Tallies(inventory.tree) && this !in inventory.Share() && hooks !in inventory.Share()
      && inventory.Share() !! Whole(globalInventory)
    }

    /** One increase of the loop, after those of `done`. */
    method IncreaseOne(itemID: int, quantity: int, ghost base: map<int, int>, ghost done: seq<(int, int)>,
                       ghost memory: seq<bool>)
      returns (ghost more: seq<bool>)
      requires Booked() && |done| == |memory| && stock == ApplyAll(base, Incs(done, memory))
      requires (forall m | m in memory :: m) || hooks.failed
      modifies this`items, this`stock, Whole(globalInventory), hooks
      ensures Booked() && Grown({}) && ((forall m | m in more :: m) || hooks.failed)
      ensures |more| == |done| + 1 && stock == ApplyAll(base, Incs(done + [(itemID, quantity)], more))
    {
      hide ApplyAll, Apply, Incs, Booked;
      BookParts();
      var increased;
      ghost var recorded, lost;
      increased, recorded, lost := IncreaseStock(itemID, quantity);
      Increased(base, done, memory, (itemID, quantity), recorded);
      more := memory + [recorded];
    }

    /** The loop of addClient; false stands for the exception of std::stoi. */
    method IncreaseAll(inventory: Node) returns (ok: bool, ghost memory: seq<bool>)
      requires Booked() && Given(inventory)
      modifies this`items, this`stock, Whole(globalInventory), hooks
      ensures Booked() && Grown({}) && ok == !Throws(Listed(Some(inventory.tree)))
      ensures stock == ApplyAll(old(stock), Incs(Contents(Some(inventory.tree)), memory))
      ensures (forall m | m in memory :: m) || hooks.failed
    {
      hide Node.Valid, ApplyAll, Incs, Amounts, Throws, Contents, Listed, Entries, Stoi, Tallies, Booked, TextOf;
      hide Walked;
      ghost var es := Entries(inventory.tree);
      ghost var done: seq<(int, int)> := [];
      memory := [];
      EntriesCount(inventory.tree);
      InventoryBegins(inventory);
      WalkStarts(es);
      BookParts();
      Nothing(stock);
      var item := inventory.child;
      ghost var i := 0;
      while item != null
        invariant i <= |es| && item == (if i < |es| then inventory.children[i] else null) && Booked() && Grown({})
        invariant |memory| == |done| && stock == ApplyAll(old(stock), Incs(done, memory)) && Walked(es, i, done)
        invariant (forall m | m in memory :: m) || hooks.failed
        decreases |es| - i
      {
        AtChild(inventory, i);
        WalkGoesOn(es, i, done);
        if item.kind == IsNumber {
          var read := Stoi(TextOf(item.key));
          if read == None {
            return false, memory;
          }
          memory := IncreaseOne(read.value, ValueInt(item.valuedouble), old(stock), done, memory);
        } else {
          Joined(done, [], []);
        }
        done := done + Seen(es[i]);
        item := item.next;
        i := i + 1;
      }
      WalkEnds(es, done);
      return true, memory;
    }

    /** The loop of removeClient; false stands for the exception of std::stoi. */
    method DecreaseAll(inventory: Node) returns (ok: bool)
      requires Booked() && Given(inventory)
      modifies this`stock, Whole(globalInventory)
      ensures Booked() && Whole(globalInventory) == old(Whole(globalInventory))
      ensures ok == !Throws(Listed(Some(inventory.tree)))
      ensures stock == ApplyAll(old(stock), Decs(Contents(Some(inventory.tree))))
    {
      hide Node.Valid, ApplyAll, Decs, Amounts, Throws, Contents, Listed, Entries, Stoi, Tallies, Booked, TextOf;
      hide Walked;
      ghost var es := Entries(inventory.tree);
      ghost var done: seq<(int, int)> := [];
      EntriesCount(inventory.tree);
      InventoryBegins(inventory);
      WalkStarts(es);
      BookParts();
      Nothing(stock);
      var item := inventory.child;
      ghost var i := 0;
      while item != null
        invariant i <= |es| && item == (if i < |es| then inventory.children[i] else null)
        invariant Booked() && Whole(globalInventory) == old(Whole(globalInventory))
        invariant stock == ApplyAll(old(stock), Decs(done)) && Walked(es, i, done)
        decreases |es| - i
      {
        AtChild(inventory, i);
        WalkGoesOn(es, i, done);
        if item.kind == IsNumber {
          var read := Stoi(TextOf(item.key));
          if read == None {
            return false;
          }
          var decreased := DecreaseStock(read.value, ValueInt(item.valuedouble));
          Decreased(old(stock), done, (read.value, ValueInt(item.valuedouble)));
        } else {
          Joined(done, [], []);
        }
        done := done + Seen(es[i]);
        item := item.next;
        i := i + 1;
      }
      WalkEnds(es, done);
      return true;
    }

    /** Only what is new joins the inventories of the clients. */
    twostate predicate NewGoods()
      reads this`clientInventories, Heads(clientInventories)`owned
    {
      forall o | o in Goods(Heads(clientInventories)) :: o in old(Goods(Heads(clientInventories))) || fresh(o)
    }

    /** What the manager has is not disturbed by a new inventory. */
    method Give(clientID: int, inventory: Node?) returns (ghost memory: bool)
      requires Valid() && clientID !in clientInventories
      requires inventory != null ==> inventory.Valid() && hooks !in inventory.Share()
      modifies this`clientInventories, hooks
      ensures Valid() && (old(hooks.failed) ==> hooks.failed) && (memory || hooks.failed)
      ensures clientID in clientInventories
      ensures clientInventories == old(clientInventories)[clientID := clientInventories[clientID]]
      ensures fresh(Whole(clientInventories[clientID]))
      ensures hooks.live == old(hooks.live) + Whole(clientInventories[clientID])
      ensures Values(clientInventories)
        == old(Values(clientInventories))[clientID := Kept(old(TreeAt(inventory)), memory)]
      ensures NewGoods()
    {
      hide Node.Valid, Booked, Stocked, Values, Goods, Heads, Kept, Listing, Tallied, Searchable;
      BookParts();
      TheirOwn(clientInventories);
      memory := Put(clientID, inventory);
      Rebooked();
    }

    /** A client leaves with its inventory, which is freed. */
    method Drop(clientID: int)
      requires Valid()
      modifies this`clientInventories, hooks`live
      ensures Valid() && clientInventories == old(clientInventories) - {clientID}
      ensures Values(clientInventories) == old(Values(clientInventories)) - {clientID}
      ensures hooks.live == old(hooks.live - Whole(Of(clientInventories, clientID))) && NewGoods()
    {
      hide Node.Valid, Booked, Stocked, Values, Goods, Heads, Listing, Tallied, Searchable;
      BookParts();
      Discard(clientID);
      TheirOwn(clientInventories - {clientID});
      clientInventories := clientInventories - {clientID};
      Rebooked();
    }

    /** addClient for a client that is not there. */
    method NewClient(clientID: int, initialInventory: Node?)
      returns (ok: bool, ghost memory: bool, ghost entries: seq<bool>)
      requires Valid() && (initialInventory != null ==> Given(initialInventory)) && clientID !in clientInventories
      modifies this`items, this`stock, this`clientInventories, Whole(globalInventory), hooks
      ensures Valid() && clientID in clientInventories && fresh(Whole(clientInventories[clientID])) && NewGoods()
      ensures clientInventories == old(clientInventories)[clientID := clientInventories[clientID]]
      ensures Grown(Whole(clientInventories[clientID])) && ((memory && forall m | m in entries :: m) || hooks.failed)
      ensures ok == !Throws(Listed(old(TreeAt(initialInventory))))
      ensures stock == ApplyAll(old(stock), Incs(Contents(old(TreeAt(initialInventory))), entries))
      ensures Values(clientInventories)
        == old(Values(clientInventories))[clientID := Kept(old(TreeAt(initialInventory)), memory)]
    {
      hide Node.Valid, Booked, Separate, Values, Goods, Heads, Kept, Tallies, ApplyAll, Contents, Listed, Throws, Incs;
      Nothing(stock);
      BookParts();
      memory := Give(clientID, initialInventory);
      ok, entries := true, [];
      if initialInventory != null {
        TheirOwn(clientInventories);
        ok, entries := IncreaseAll(initialInventory);
      }
    }

    /** addClient. Without memory for it the client is present without an inventory, though the stock is
        raised, as far as there is memory for its entries; an unreadable name ends it with an exception. */
    method AddClient(clientID: int, initialInventory: Node?) returns (ok: bool, ghost op: Op)
      requires Valid() && (initialInventory != null ==> Given(initialInventory))
      modifies this`items, this`stock, this`clientInventories, Whole(globalInventory), hooks
      ensures Valid() && clientID in clientInventories && NewGoods()
      ensures clientInventories == old(clientInventories)[clientID := clientInventories[clientID]]
      ensures clientID in old(clientInventories) ==> Grown({})
      ensures clientID !in old(clientInventories) ==>
        fresh(Whole(clientInventories[clientID])) && Grown(Whole(clientInventories[clientID]))
      ensures op.AddClient? && op.id == clientID && op.initial == old(TreeAt(initialInventory))
      ensures (HadMemory(op) || hooks.failed) && ok == !Fails(old(State()), op) && State() == Step(old(State()), op)
    {
      hide Node.Valid, Booked, Stocked, Values, Goods, Heads, Kept, Tallies, ApplyAll, Contents, Listed, Throws, Incs;
      Nothing(stock);
      SameKeys(clientInventories);
      ghost var memory, entries := true, [];
      ok := true;
      if clientID !in clientInventories {
        ok, memory, entries := NewClient(clientID, initialInventory);
      }
      op := Op.AddClient(clientID, old(TreeAt(initialInventory)), memory, entries);
    }

    /** removeClient. When a name cannot be read the client stays, with what was taken out before. */
    method RemoveClient(clientID: int) returns (ok: bool)
      requires Valid()
      requires Of(clientInventories, clientID) != null ==> Tallies(clientInventories[clientID].tree)
      modifies this`stock, this`clientInventories, Whole(globalInventory), hooks`live
      ensures Valid() && Whole(globalInventory) == old(Whole(globalInventory)) && NewGoods()
      ensures ok == !Fails(old(State()), Op.RemoveClient(clientID))
      ensures State() == Step(old(State()), Op.RemoveClient(clientID))
      ensures clientInventories == if ok then old(clientInventories) - {clientID} else old(clientInventories)
      ensures hooks.live == old(hooks.live) - if ok then old(Whole(Of(clientInventories, clientID))) else {}
    {
      hide Node.Valid, Booked, Stocked, Values, Goods, Heads, Tallies, ApplyAll, Contents, Listed, Throws, Decs;
      SameKeys(clientInventories);
      Nothing(stock);
      if clientID in clientInventories && clientInventories[clientID] != null {
        InventoryOf(clientID);
        TheirOwn(clientInventories);
        BookParts();
        ok := DecreaseAll(clientInventories[clientID]);
        if !ok {
          return false;
        }
      }
      Drop(clientID);
      return true;
    }

    /** updateClientInventory. Global stock is not touched; without memory the client is left without an
        inventory. */
    method UpdateClientInventory(clientID: int, clientInventory: Node?) returns (ghost op: Op)
      requires Valid()
      requires clientInventory != null ==>
        Given(clientInventory) && Whole(Of(clientInventories, clientID)) !! clientInventory.Share()
      modifies this`clientInventories, hooks
      ensures Valid() && (old(hooks.failed) ==> hooks.failed) && NewGoods()
      ensures clientInventory == null ==> clientInventories == old(clientInventories) && hooks.live == old(hooks.live)
      ensures op.UpdateClient? && op.id == clientID && op.update == old(TreeAt(clientInventory))
      ensures (op.memory || hooks.failed) && State() == Step(old(State()), op)
      ensures clientInventory != null ==>
        clientID in clientInventories
        && clientInventories == old(clientInventories)[clientID := clientInventories[clientID]]
        && fresh(Whole(clientInventories[clientID]))
        && hooks.live == old(hooks.live - Whole(Of(clientInventories, clientID))) + Whole(clientInventories[clientID])
    {
      hide Node.Valid, Booked, Stocked, Values, Goods, Heads, CopyOf, ApplyAll;
      Nothing(stock);
      ghost var memory := true;
      if clientInventory != null {
        Drop(clientID);
        memory := Give(clientID, clientInventory);
      }
      op := UpdateClient(clientID, old(TreeAt(clientInventory)), memory);
    }
  }
}
