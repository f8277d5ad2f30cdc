/** Histories of an inventory manager: the runs of the value layer are what sequences of calls do to the
    object, whatever fails in them. */
module Histories {
  import opened Bytes
  import opened Json
  import opened Nodes
  import opened TreeEdits
  import opened Stock
  import opened Inventory

  /** The calls of the public interface that change something. */
  datatype Call =
    | Add(id: int, initial: Node?)
    | Remove(id: int)
    | Increase(item: int, quantity: int)
    | Decrease(item: int, quantity: int)
    | Update(id: int, update: Node?)

  /** The inventory a call hands over. */
  function Passed(c: Call): Node? {
    match c
    case Add(_, n) => n
    case Update(_, n) => n
    case _ => null
  }

  /** What a call is among the operations of a run. */
  ghost predicate Answers(c: Call, op: Op)
    reads One(Passed(c))`tree
  {
    match c
    case Add(id, n) => op.AddClient? && op.id == id && op.initial == TreeAt(n)
    case Remove(id) => op == RemoveClient(id)
    case Increase(item, q) => op.IncreaseStock? && op.item == item && op.quantity == q
    case Decrease(item, q) => op == DecreaseStock(item, q)
    case Update(id, n) => op.UpdateClient? && op.id == id && op.update == TreeAt(n)
  }

  predicate AllTally(clients: map<int, Option<J>>) {
    forall id | id in clients && clients[id].Some? :: Tallies(clients[id].value)
  }

  lemma StepTallies(s: Store, op: Op)
    requires AllTally(s.clients)
    requires op.AddClient? && op.initial.Some? ==> Tallies(op.initial.value)
    requires op.UpdateClient? && op.update.Some? ==> Tallies(op.update.value)
    ensures AllTally(Step(s, op).clients)
  {
    hide Castable, Throws, Listed, Events, ApplyAll;
  }

  /** The inventory is the caller's: no part of it belongs to the manager. */
  ghost predicate Foreign(m: InventoryManager, n: Node)
    reads m, m.hooks, One(m.globalInventory), Heads(m.clientInventories), n, n.owned
  {
    m.Given(n) && n.Share() !! Goods(Heads(m.clientInventories))
  }

  ghost predicate Served(m: InventoryManager, c: Call)
    reads m, m.hooks, One(m.globalInventory), Heads(m.clientInventories)
    reads One(Passed(c)), if Passed(c) == null then {} else Passed(c).owned
  {
    Passed(c) != null ==> Foreign(m, Passed(c))
  }

  /** What any call keeps and promises. */
  twostate predicate WellServed(m: InventoryManager)
    reads m, m.hooks, One(m.globalInventory), Heads(m.clientInventories), Goods(Heads(m.clientInventories))
    reads if m.globalInventory == null then {} else m.globalInventory.owned
  {
    m.Valid() && m.NewGoods() && (old(m.hooks.failed) ==> m.hooks.failed) && m.globalInventory == old(m.globalInventory)
    && forall o | o in Whole(m.globalInventory) :: o in old(Whole(m.globalInventory)) || fresh(o)
  }

  method ServeIncrease(m: InventoryManager, item: int, quantity: int) returns (ghost op: Op)
    requires m.Valid()
    modifies m`items, m`stock, Whole(m.globalInventory), m.hooks
    ensures WellServed(m) && op.IncreaseStock? && op.item == item && op.quantity == quantity
    ensures (op.memory || m.hooks.failed) && m.State() == Step(old(m.State()), op)
  {
    hide Separate, Values, Goods, Heads, InventoryManager.Booked, Apply;
    m.BookParts();
    m.TheirOwn(m.clientInventories);
    SameKeys(m.clientInventories);
    var ok;
    ghost var memory, lost;
    ok, memory, lost := m.IncreaseStock(item, quantity);
    op := IncreaseStock(item, quantity, memory);
    OneEvent(old(m.stock), Inc(item, quantity, memory));
  }

  method ServeDecrease(m: InventoryManager, item: int, quantity: int)
    requires m.Valid()
    modifies m`stock, Whole(m.globalInventory)
    ensures WellServed(m) && m.State() == Step(old(m.State()), DecreaseStock(item, quantity))
  {
    hide Separate, Values, Goods, Heads, InventoryManager.Booked, Apply;
    m.BookParts();
    m.TheirOwn(m.clientInventories);
    SameKeys(m.clientInventories);
    var ok := m.DecreaseStock(item, quantity);
    OneEvent(old(m.stock), Dec(item, quantity));
  }

  lemma OneEvent(stock: map<int, int>, e: Event)
    ensures ApplyAll(stock, [e]) == Apply(stock, e)
  {
    hide Apply;
    assert ApplyAll(stock, [e]) == ApplyAll(Apply(stock, e), [e][1..]);
  }

  /** One call. */
  method Serve(m: InventoryManager, c: Call) returns (ghost op: Op)
    requires m.Valid() && AllTally(m.State().clients) && Served(m, c)
    modifies m`items, m`stock, m`clientInventories, Whole(m.globalInventory), m.hooks
    ensures WellServed(m) && Answers(c, op) && (HadMemory(op) || m.hooks.failed)
    ensures m.State() == Step(old(m.State()), op) && AllTally(m.State().clients)
  {
    hide InventoryManager.Booked, InventoryManager.Stocked, Values, Goods, Heads, Step, Tallies, Node.Valid;
    SameKeys(m.clientInventories);
    m.BookParts();
    match c {
      case Add(id, n) =>
        var ok;
        ok, op := m.AddClient(id, n);
      case Remove(id) =>
        op := RemoveClient(id);
        var ok := m.RemoveClient(id);
      case Increase(item, q) => op := ServeIncrease(m, item, q);
      case Decrease(item, q) =>
        op := DecreaseStock(item, q);
        ServeDecrease(m, item, q);
      case Update(id, n) =>
        if id in m.clientInventories && m.clientInventories[id] != null {
          m.InventoryOf(id);
        }
        op := m.UpdateClientInventory(id, n);
    }
    StepTallies(old(m.State()), op);
  }

  /** Any sequence of calls, each with an inventory of the caller's: the object ends in the state of a run
      of the value layer that answers the calls one by one, and without a failed allocation it is a run
      in which there was always memory. */
  method ServeAll(m: InventoryManager, calls: seq<Call>) returns (ghost ops: seq<Op>)
    requires m.Valid() && AllTally(m.State().clients) && forall c | c in calls :: Served(m, c)
    modifies m`items, m`stock, m`clientInventories, Whole(m.globalInventory), m.hooks
    ensures m.Valid() && (old(m.hooks.failed) ==> m.hooks.failed)
    ensures |ops| == |calls| && forall i :: 0 <= i < |calls| ==> Answers(calls[i], ops[i])
    ensures m.State() == Run(old(m.State()), ops)
    ensures (forall op | op in ops :: HadMemory(op)) || m.hooks.failed
    decreases |calls|
  {
    hide InventoryManager.Valid, AllTally, Step, HadMemory, Heads, Goods, Node.Valid, Tallies;
    if calls == [] {
      return [];
    }
    assert calls[0] in calls;
    ghost var op := Serve(m, calls[0]);
    forall c | c in calls[1..] ensures Served(m, c) {
      assert c in calls;
      var n := Passed(c);
      if n != null {
        assert old(Foreign(m, n));
      }
    }
    ghost var rest := ServeAll(m, calls[1..]);
    ops := [op] + rest;
    assert ops[1..] == rest;
  }

  /** A call that keeps stock and inventories together, with names that can be read. */
  ghost predicate Tame(c: Call, lo: int, hi: int)
    reads One(Passed(c))`tree
  {
    match c
    case Add(id, n) => lo <= id < hi && !Throws(Listed(TreeAt(n)))
    case Remove(id) => lo <= id < hi
    case Increase(_, _) => true
    case _ => false
  }

  lemma TameRunsConserve(calls: seq<Call>, ops: seq<Op>, lo: int, hi: int)
    requires |ops| == |calls| && forall i :: 0 <= i < |calls| ==> Answers(calls[i], ops[i])
    requires (forall c | c in calls :: Tame(c, lo, hi)) && forall op | op in ops :: HadMemory(op)
    ensures RemovalsSucceed(EMPTY, ops) && forall item :: Conserved(ops, lo, hi, item)
  {
    hide Throws, Listed, HadMemory, RemovalsSucceed, Conserved;
    forall op | op in ops
      ensures Coupled(op, lo, hi) && !op.UpdateClient? && (op.AddClient? ==> !Throws(Listed(op.initial)))
    {
      var i :| 0 <= i < |ops| && ops[i] == op;
      assert Answers(calls[i], op) && calls[i] in calls;
    }
    ReadableRunsAreUnbroken(EMPTY, ops);
    StockConservation(ops, lo, hi);
  }

  /** A new manager and any calls to it. No level is ever negative; and if no allocation failed, and the
      calls only add and remove clients and increase stock, with readable names, every level is what was
      brought in plus what the clients present hold, plus what came with inventories too deep to copy. */
  method History(calls: seq<Call>, hooks: Allocator, ghost lo: int, ghost hi: int)
    returns (m: InventoryManager, ghost ops: seq<Op>)
    requires forall c | c in calls && Passed(c) != null ::
      var n := Passed(c); n.Valid() && Tallies(n.tree) && hooks !in n.Share()
    modifies hooks
    ensures fresh(m) && m.Valid() && m.hooks == hooks
    ensures |ops| == |calls| && forall i :: 0 <= i < |calls| ==> Answers(calls[i], ops[i])
    ensures m.State() == Run(EMPTY, ops) && forall item :: Level(m.stock, item) >= 0
    ensures !hooks.failed && (forall c | c in calls :: Tame(c, lo, hi)) ==>
      RemovalsSucceed(EMPTY, ops) && forall item :: Conserved(ops, lo, hi, item)
  {
    hide InventoryManager.Valid, Run, HadMemory, RemovalsSucceed, Conserved, Tame, Answers, Node.Valid, Tallies;
    m := new InventoryManager(hooks);
    NoGoods();
    ops := ServeAll(m, calls);
    forall item ensures Level(m.stock, item) >= 0 {
      StockLedger(ops, item);
    }
    if !hooks.failed && forall c | c in calls :: Tame(c, lo, hi) {
      TameRunsConserve(calls, ops, lo, hi);
    }
  }

  lemma NoGoods()
    ensures Goods(Heads(map[])) == {}
  {
  }
}
