/** Stock levels and client inventories as values, and the laws that hold over whole runs. */
module Stock {
  import opened Bytes
  import opened Json
  import opened Numbers
  import opened Duplicates

  // ---- one run, step by step ----

  /** A call that changes a stock level. `memory` says whether there is memory for a new entry. */
  datatype Event = Inc(item: int, quantity: int, memory: bool) | Dec(item: int, quantity: int)

  /** Levels of the items known so far; what each client present holds, None for a copy that failed. */
  datatype Store = Store(stock: map<int, int>, clients: map<int, Option<J>>)

  /** The operations, with what becomes of their allocations: that of the client's inventory, and those of
      new stock entries, in order; entries that are not listed have memory. */
  datatype Op =
    | AddClient(id: int, initial: Option<J>, memory: bool, entries: seq<bool>)
    | RemoveClient(id: int)
    | IncreaseStock(item: int, quantity: int, memory: bool)
    | DecreaseStock(item: int, quantity: int)
    | UpdateClient(id: int, update: Option<J>, memory: bool)

  const EMPTY: Store := Store(map[], map[])

  predicate HadMemory(op: Op) {
    match op
    case AddClient(_, _, memory, entries) => memory && forall m | m in entries :: m
    case IncreaseStock(_, _, memory) => memory
    case UpdateClient(_, _, memory) => memory
    case _ => true
  }

  function Level(stock: map<int, int>, item: int): int {
    if item in stock then stock[item] else 0
  }

  /** Whether increaseStock or decreaseStock returns true; an increase does so even if its entry is lost. */
  predicate Accepted(stock: map<int, int>, e: Event) {
    match e
    case Inc(_, q, _) => q > 0
    case Dec(item, q) => q > 0 && item in stock && stock[item] >= q
  }

  predicate Recorded(stock: map<int, int>, e: Event) {
    Accepted(stock, e) && (e.Inc? ==> e.memory || e.item in stock)
  }

  function Apply(stock: map<int, int>, e: Event): map<int, int> {
    if !Recorded(stock, e) then stock
    else stock[e.item := Level(stock, e.item) + if e.Inc? then e.quantity else -e.quantity]
  }

  /** An increase of a positive quantity is accepted, a decrease of one that is in stock; they move the level
      of their item by it, and no other. */
  lemma EventsMoveLevels(stock: map<int, int>, item: int, q: int, memory: bool, i: int)
    ensures Accepted(stock, Inc(item, q, memory)) <==> q > 0
    ensures Accepted(stock, Dec(item, q)) <==> q > 0 && Level(stock, item) >= q
    ensures Level(Apply(stock, Inc(item, q, memory)), i)
      == Level(stock, i) + if i == item && q > 0 && (memory || item in stock) then q else 0
    ensures Level(Apply(stock, Dec(item, q)), i)
      == Level(stock, i) - if i == item && q > 0 && Level(stock, item) >= q then q else 0
  {
  }

  function ApplyAll(stock: map<int, int>, es: seq<Event>): map<int, int>
    decreases es
  {
    if es == [] then stock else ApplyAll(Apply(stock, es[0]), es[1..])
  }

  /** First position at or after `i` that holds no whitespace of the C locale. */
  function Blanks(s: Bytes, i: nat): (e: nat)
    requires i <= |s|
    ensures i <= e <= |s|
    decreases |s| - i
  {
    if i < |s| && (s[i] == SPACE || 9 <= s[i] <= 13) then Blanks(s, i + 1) else i
  }

  /** std::stoi; None stands for its exceptions. */
  function Stoi(s: Bytes): Option<int> {
    var sign := Blanks(s, 0);
    var start := SignEnd(s, sign);
    var end := DigitsEnd(s, start);
    if end == start then None
    else
      var n: int := DigitsValue(s, start, end);
      var v: int := if s[sign] == MINUS then -n else n;
      if INT_MIN <= v <= INT_MAX then Some(v) else None
  }

  /** A number entry on which std::stoi throws. */
  predicate Unreadable(m: Member) {
    m.value.Num? && Stoi(m.key) == None
  }

  /** Whether the loop over the entries ends with an exception. */
  predicate Throws(ms: seq<Member>) {
    ms != [] && (Unreadable(ms[0]) || Throws(ms[1..]))
  }

  /** The items and quantities of the entries up to the first unreadable one; entries that are no numbers
      are passed over. */
  function Amounts(ms: seq<Member>): seq<(int, int)> {
    if ms == [] || Unreadable(ms[0]) then []
    else
      (if ms[0].value.Num? then [(Stoi(ms[0].key).value, ValueInt(ms[0].value.valuedouble))] else [])
      + Amounts(ms[1..])
  }

  /** The entries the loops look at. */
  function Listed(inventory: Option<J>): seq<Member> {
    if inventory.Some? && inventory.value.Obj? then inventory.value.members else []
  }

  function Contents(inventory: Option<J>): seq<(int, int)> {
    Amounts(Listed(inventory))
  }

  function Incs(amounts: seq<(int, int)>, memory: seq<bool>): seq<Event> {
    if amounts == [] then []
    else
      [Inc(amounts[0].0, amounts[0].1, memory == [] || memory[0])]
      + Incs(amounts[1..], if memory == [] then [] else memory[1..])
  }

  function Decs(amounts: seq<(int, int)>): seq<Event> {
    if amounts == [] then [] else [Dec(amounts[0].0, amounts[0].1)] + Decs(amounts[1..])
  }

  /** The calls to increaseStock and decreaseStock that an operation makes. */
  function Events(s: Store, op: Op): seq<Event> {
    match op
    case AddClient(id, initial, _, entries) => if id in s.clients then [] else Incs(Contents(initial), entries)
    case RemoveClient(id) => if id in s.clients then Decs(Contents(s.clients[id])) else []
    case IncreaseStock(item, q, memory) => [Inc(item, q, memory)]
    case DecreaseStock(item, q) => [Dec(item, q)]
    case UpdateClient(_, _, _) => []
  }

  /** Whether the operation ends with an exception. */
  predicate Fails(s: Store, op: Op) {
    match op
    case AddClient(id, initial, _, _) => id !in s.clients && Throws(Listed(initial))
    case RemoveClient(id) => id in s.clients && Throws(Listed(s.clients[id]))
    case _ => false
  }

  /** The inventory a new client is given. */
  function Kept(initial: Option<J>, memory: bool): Option<J> {
    if !memory then None else if initial.Some? then CopyOf(initial.value) else Some(Obj([]))
  }

  /** A client whose removal throws stays. */
  function Clients(clients: map<int, Option<J>>, op: Op): map<int, Option<J>> {
    match op
    case AddClient(id, initial, memory, _) => if id in clients then clients else clients[id := Kept(initial, memory)]
    case RemoveClient(id) => if id in clients && Throws(Listed(clients[id])) then clients else clients - {id}
    case UpdateClient(id, update, memory) => if update.Some? then clients[id := Kept(update, memory)] else clients
    case _ => clients
  }

  function Step(s: Store, op: Op): Store {
    Store(ApplyAll(s.stock, Events(s, op)), Clients(s.clients, op))
  }

  function Run(s: Store, ops: seq<Op>): Store
    decreases ops
  {
    if ops == [] then s else Run(Step(s, ops[0]), ops[1..])
  }

  // ---- the ledger: every level is what came in minus what went out ----

  /** What the recorded events of one kind move. */
  function Moved(stock: map<int, int>, es: seq<Event>, item: int, inwards: bool): nat
    decreases es
  {
    if es == [] then 0
    else
      (if es[0].Inc? == inwards && es[0].item == item && Recorded(stock, es[0]) then es[0].quantity else 0)
      + Moved(Apply(stock, es[0]), es[1..], item, inwards)
  }

  function MovedInRun(s: Store, ops: seq<Op>, item: int, inwards: bool): nat
    decreases ops
  {
    if ops == [] then 0
    else Moved(s.stock, Events(s, ops[0]), item, inwards) + MovedInRun(Step(s, ops[0]), ops[1..], item, inwards)
  }

  predicate NonNegative(stock: map<int, int>) {
    forall item :: item in stock ==> stock[item] >= 0
  }

  lemma {:induction false} EventLedger(stock: map<int, int>, es: seq<Event>, item: int)
    requires NonNegative(stock)
    ensures NonNegative(ApplyAll(stock, es))
    ensures Level(ApplyAll(stock, es), item)
      == Level(stock, item) + Moved(stock, es, item, true) - Moved(stock, es, item, false)
    decreases es
  {
    if es != [] {
      EventLedger(Apply(stock, es[0]), es[1..], item);
    }
  }

  lemma {:induction false} RunLedger(s: Store, ops: seq<Op>, item: int)
    requires NonNegative(s.stock)
    ensures NonNegative(Run(s, ops).stock)
    ensures Level(Run(s, ops).stock, item)
      == Level(s.stock, item) + MovedInRun(s, ops, item, true) - MovedInRun(s, ops, item, false)
    decreases ops
  {
    hide Apply, Recorded, ApplyAll, Moved, Events, Clients;
    if ops != [] {
      EventLedger(s.stock, Events(s, ops[0]), item);
      RunLedger(Step(s, ops[0]), ops[1..], item);
    }
  }

  /** Over every run of all operations, whatever fails or throws in them, no level is ever negative, and
      each is exactly what recorded increases brought in minus what accepted decreases took out. */
  lemma StockLedger(ops: seq<Op>, item: int)
    ensures var level := Level(Run(EMPTY, ops).stock, item);
      level >= 0 && level == MovedInRun(EMPTY, ops, item, true) - MovedInRun(EMPTY, ops, item, false)
  {
    RunLedger(EMPTY, ops, item);
  }

  // ---- conservation: stock is what was added plus what the clients present hold ----

  /** The positive quantities of an inventory for one item. */
  function Positive(amounts: seq<(int, int)>, item: int): nat {
    if amounts == [] then 0
    else (if amounts[0].0 == item && amounts[0].1 > 0 then amounts[0].1 else 0) + Positive(amounts[1..], item)
  }

  /** What the clients with numbers from `lo` to `hi` hold of an item. */
  function Held(clients: map<int, Option<J>>, lo: int, hi: int, item: int): nat
    decreases hi - lo
  {
    if hi <= lo then 0
    else
      (if hi - 1 in clients then Positive(Contents(clients[hi - 1]), item) else 0) + Held(clients, lo, hi - 1, item)
  }

  lemma {:induction false} HeldWithout(clients: map<int, Option<J>>, id: int, lo: int, hi: int, item: int)
    requires id in clients
    ensures Held(clients, lo, hi, item)
      == Held(clients - {id}, lo, hi, item) + if lo <= id < hi then Positive(Contents(clients[id]), item) else 0
    decreases hi - lo
  {
    hide Contents, Positive;
    if lo < hi {
      HeldWithout(clients, id, lo, hi - 1, item);
    }
  }

  lemma HeldWith(clients: map<int, Option<J>>, id: int, inventory: Option<J>, lo: int, hi: int, item: int)
    requires id !in clients && lo <= id < hi
    ensures Held(clients[id := inventory], lo, hi, item)
      == Positive(Contents(inventory), item) + Held(clients, lo, hi, item)
  {
    HeldWithout(clients[id := inventory], id, lo, hi, item);
    assert clients[id := inventory] - {id} == clients;
  }

  /** The quantities of increases that return true and are not recorded. */
  function Lost(stock: map<int, int>, es: seq<Event>, item: int): nat
    decreases es
  {
    if es == [] then 0
    else
      (if es[0].Inc? && es[0].item == item && es[0].quantity > 0 && !Recorded(stock, es[0]) then es[0].quantity else 0)
      + Lost(Apply(stock, es[0]), es[1..], item)
  }

  /** Adding an inventory raises every level by its positive entries, but for those that are lost. */
  lemma {:induction false} IncsAdd(stock: map<int, int>, amounts: seq<(int, int)>, memory: seq<bool>, item: int)
    ensures Level(ApplyAll(stock, Incs(amounts, memory)), item)
      == Level(stock, item) + Positive(amounts, item) - Lost(stock, Incs(amounts, memory), item)
    decreases amounts
  {
    if amounts != [] {
      var e := Incs(amounts, memory)[0];
      IncsAdd(Apply(stock, e), amounts[1..], if memory == [] then [] else memory[1..], item);
    }
  }

  /** No event of a positive quantity is refused. */
  predicate NoneRefused(stock: map<int, int>, es: seq<Event>)
    decreases es
  {
    es == [] || ((es[0].quantity > 0 ==> Accepted(stock, es[0])) && NoneRefused(Apply(stock, es[0]), es[1..]))
  }

  ghost predicate Covers(stock: map<int, int>, amounts: seq<(int, int)>) {
    forall item :: Level(stock, item) >= Positive(amounts, item)
  }

  /** Taking out an inventory that the stock covers never fails. */
  lemma {:induction false} CoveredDecs(stock: map<int, int>, amounts: seq<(int, int)>)
    requires Covers(stock, amounts)
    ensures NoneRefused(stock, Decs(amounts))
    decreases amounts
  {
    if amounts != [] {
      var e := Dec(amounts[0].0, amounts[0].1);
      var next := Apply(stock, e);
      assert Level(stock, e.item) >= Positive(amounts, e.item);
      forall i ensures Level(next, i) >= Positive(amounts[1..], i) {
        assert Level(stock, i) >= Positive(amounts, i);
      }
      CoveredDecs(next, amounts[1..]);
    }
  }

  /** Taking out an inventory without a refusal lowers every level by its positive entries. */
  lemma {:induction false} DecsTake(stock: map<int, int>, amounts: seq<(int, int)>, item: int)
    requires NoneRefused(stock, Decs(amounts))
    ensures Level(ApplyAll(stock, Decs(amounts)), item) == Level(stock, item) - Positive(amounts, item)
    decreases amounts
  {
    if amounts != [] {
      DecsTake(Apply(stock, Dec(amounts[0].0, amounts[0].1)), amounts[1..], item);
    }
  }

  /** Operations that keep stock and inventories together, all but direct decreases and replacements;
      client numbers are from `lo` to `hi`. */
  predicate Coupled(op: Op, lo: int, hi: int) {
    op.IncreaseStock? || ((op.AddClient? || op.RemoveClient?) && lo <= op.id < hi)
  }

  /** The client, if the operation is about one, has a number from `lo` to `hi`. */
  predicate Placed(op: Op, lo: int, hi: int) {
    op.AddClient? || op.RemoveClient? || op.UpdateClient? ==> lo <= op.id < hi
  }

  ghost predicate Covered(s: Store, lo: int, hi: int) {
    forall item :: Level(s.stock, item) >= Held(s.clients, lo, hi, item)
  }

  /** What a direct increase reports to have brought in. */
  function Increase(op: Op, item: int): nat {
    if op.IncreaseStock? && op.item == item && op.quantity > 0 then op.quantity else 0
  }

  /** What is put in stock for a new client whose inventory is not kept: it is too deep to copy, or
      there is no memory. */
  function Orphaned(s: Store, op: Op, item: int): nat {
    if op.AddClient? && op.id !in s.clients && Kept(op.initial, op.memory) == None
    then Positive(Contents(op.initial), item) else 0
  }

  /** What is missing from the stock after an operation: increases whose entries are lost, and what a
      removal that throws has taken out for a client that stays. */
  function Missing(s: Store, op: Op, item: int): nat {
    match op
    case RemoveClient(id) => if Fails(s, op) then Positive(Contents(s.clients[id]), item) else 0
    case _ => Lost(s.stock, Events(s, op), item)
  }

  /** What a direct decrease takes out. */
  function Decrease(s: Store, op: Op, item: int): nat {
    if op.DecreaseStock? && op.item == item && Accepted(s.stock, Dec(item, op.quantity)) then op.quantity else 0
  }

  /** What the old inventory of a client holds more than the update that takes its place. */
  function Exchanged(s: Store, op: Op, item: int): int {
    if op.UpdateClient? && op.update.Some?
    then
      (if op.id in s.clients then Positive(Contents(s.clients[op.id]), item) else 0)
      - Positive(Contents(Kept(op.update, op.memory)), item)
    else 0
  }

  function AllDecreases(s: Store, ops: seq<Op>, item: int): nat
    decreases ops
  {
    if ops == [] then 0 else Decrease(s, ops[0], item) + AllDecreases(Step(s, ops[0]), ops[1..], item)
  }

  function AllExchanged(s: Store, ops: seq<Op>, item: int): int
    decreases ops
  {
    if ops == [] then 0 else Exchanged(s, ops[0], item) + AllExchanged(Step(s, ops[0]), ops[1..], item)
  }

  function Increases(ops: seq<Op>, item: int): nat {
    if ops == [] then 0 else Increase(ops[0], item) + Increases(ops[1..], item)
  }

  function AllOrphaned(s: Store, ops: seq<Op>, item: int): nat
    decreases ops
  {
    if ops == [] then 0 else Orphaned(s, ops[0], item) + AllOrphaned(Step(s, ops[0]), ops[1..], item)
  }

  function AllMissing(s: Store, ops: seq<Op>, item: int): nat
    decreases ops
  {
    if ops == [] then 0 else Missing(s, ops[0], item) + AllMissing(Step(s, ops[0]), ops[1..], item)
  }

  /** In no removal of the run is a decrease refused. */
  predicate RemovalsSucceed(s: Store, ops: seq<Op>)
    decreases ops
  {
    ops == []
    || ((ops[0].RemoveClient? ==> NoneRefused(s.stock, Events(s, ops[0])))
        && RemovalsSucceed(Step(s, ops[0]), ops[1..]))
  }

  /** The level of an item is what was brought in, plus the positive entries of all clients present, plus
      those of clients whose inventory was not kept. */
  ghost predicate Conserved(ops: seq<Op>, lo: int, hi: int, item: int) {
    Level(Run(EMPTY, ops).stock, item)
      == Increases(ops, item) + Held(Run(EMPTY, ops).clients, lo, hi, item) + AllOrphaned(EMPTY, ops, item)
  }

  /** Every step in which no decrease of a removal is refused keeps the balance. */
  lemma StepBalances(s: Store, op: Op, lo: int, hi: int, item: int)
    requires Placed(op, lo, hi) && (op.RemoveClient? ==> NoneRefused(s.stock, Events(s, op)))
    ensures Level(Step(s, op).stock, item) - Held(Step(s, op).clients, lo, hi, item)
      == Level(s.stock, item) - Held(s.clients, lo, hi, item)
         + Increase(op, item) - Decrease(s, op, item) + Exchanged(s, op, item) + Orphaned(s, op, item)
         - Missing(s, op, item)
  {
    hide Held, Contents, Positive, CopyOf, Throws, Listed, Kept;
    match op
    case IncreaseStock(i, q, memory) =>
      var e := Inc(i, q, memory);
      assert ApplyAll(s.stock, [e]) == ApplyAll(Apply(s.stock, e), []);
      assert Lost(s.stock, [e], item) == Lost(s.stock, [e], item) + Lost(Apply(s.stock, e), [], item);
    case DecreaseStock(i, q) =>
      var e := Dec(i, q);
      assert ApplyAll(s.stock, [e]) == ApplyAll(Apply(s.stock, e), []);
      assert Lost(s.stock, [e], item) == Lost(s.stock, [e], item) + Lost(Apply(s.stock, e), [], item);
    case AddClient(id, initial, memory, entries) =>
      if id !in s.clients {
        IncsAdd(s.stock, Contents(initial), entries, item);
        HeldWith(s.clients, id, Kept(initial, memory), lo, hi, item);
        NothingInside(initial, memory, item);
      } else {
        assert Lost(s.stock, [], item) == 0;
      }
    case RemoveClient(id) =>
      if id in s.clients {
        DecsTake(s.stock, Contents(s.clients[id]), item);
        HeldWithout(s.clients, id, lo, hi, item);
      } else {
        assert s.clients - {id} == s.clients;
      }
    case UpdateClient(id, update, memory) =>
      assert Lost(s.stock, [], item) == 0;
      UpdateExchanges(s, id, update, memory, lo, hi, item);
  }

  /** Replacing an inventory leaves the stock alone and changes what the clients hold. */
  lemma UpdateExchanges(s: Store, id: int, update: Option<J>, memory: bool, lo: int, hi: int, item: int)
    requires lo <= id < hi
    ensures var op := UpdateClient(id, update, memory);
      Step(s, op).stock == s.stock
      && Held(Step(s, op).clients, lo, hi, item) == Held(s.clients, lo, hi, item) - Exchanged(s, op, item)
  {
    hide Held, Contents, Positive, Kept;
    if update.Some? {
      var others := s.clients - {id};
      HeldWith(others, id, Kept(update, memory), lo, hi, item);
      assert others[id := Kept(update, memory)] == s.clients[id := Kept(update, memory)];
      if id in s.clients {
        HeldWithout(s.clients, id, lo, hi, item);
      } else {
        assert others == s.clients;
      }
    }
  }

  /** A copy holds what the original does; a missing one, or a new empty one, holds nothing. */
  lemma NothingInside(initial: Option<J>, memory: bool, item: int)
    ensures var kept := Kept(initial, memory);
      Positive(Contents(initial), item)
        == Positive(Contents(kept), item) + if kept == None then Positive(Contents(initial), item) else 0
  {
    hide DepthOK;
  }

  lemma CoveredClient(s: Store, id: int, lo: int, hi: int)
    requires Covered(s, lo, hi) && id in s.clients && lo <= id < hi
    ensures Covers(s.stock, Contents(s.clients[id]))
  {
    hide Contents, Positive, Held, Level;
    forall item ensures Level(s.stock, item) >= Positive(Contents(s.clients[id]), item) {
      HeldWithout(s.clients, id, lo, hi, item);
    }
  }

  /** While the stock covers the inventories, removals succeed. */
  lemma StepSucceeds(s: Store, op: Op, lo: int, hi: int)
    requires Covered(s, lo, hi) && Coupled(op, lo, hi)
    ensures op.RemoveClient? ==> NoneRefused(s.stock, Events(s, op))
  {
    hide Contents, Covered, Covers, NoneRefused;
    if op.RemoveClient? {
      if op.id in s.clients {
        CoveredClient(s, op.id, lo, hi);
        CoveredDecs(s.stock, Contents(s.clients[op.id]));
      } else {
        NothingRefused(s.stock);
      }
    }
  }

  lemma NothingRefused(stock: map<int, int>)
    ensures NoneRefused(stock, [])
  {
  }

  lemma StepStaysCovered(s: Store, op: Op, lo: int, hi: int)
    requires Covered(s, lo, hi) && Coupled(op, lo, hi) && forall item :: Missing(s, op, item) == 0
    ensures Covered(Step(s, op), lo, hi)
  {
    hide Step, Held, Level, Increase, Orphaned, Missing;
    StepSucceeds(s, op, lo, hi);
    forall item ensures Level(Step(s, op).stock, item) >= Held(Step(s, op).clients, lo, hi, item) {
      StepBalances(s, op, lo, hi, item);
    }
  }

  lemma {:induction false} RunBalances(s: Store, ops: seq<Op>, lo: int, hi: int, item: int)
    requires RemovalsSucceed(s, ops) && forall op | op in ops :: Placed(op, lo, hi)
    ensures Level(Run(s, ops).stock, item) - Held(Run(s, ops).clients, lo, hi, item)
      == Level(s.stock, item) - Held(s.clients, lo, hi, item)
         + Increases(ops, item) - AllDecreases(s, ops, item) + AllExchanged(s, ops, item) + AllOrphaned(s, ops, item)
         - AllMissing(s, ops, item)
    decreases ops
  {
    hide Step, Held, Level, Increase, Decrease, Exchanged, Orphaned, Missing, Placed, NoneRefused, Events;
    if ops != [] {
      assert ops[0] in ops;
      StepBalances(s, ops[0], lo, hi, item);
      assert forall op | op in ops[1..] :: op in ops;
      RunBalances(Step(s, ops[0]), ops[1..], lo, hi, item);
    }
  }

  /** Over every run of all operations in whose removals no decrease is refused, every level is what direct
      increases brought in, less what direct decreases took out, plus the positive entries of all clients
      present, corrected by what updates exchanged, by inventories that were not kept and by what is
      missing. */
  lemma StockBalance(ops: seq<Op>, lo: int, hi: int, item: int)
    requires RemovalsSucceed(EMPTY, ops) && forall op | op in ops :: Placed(op, lo, hi)
    ensures var end := Run(EMPTY, ops);
      Level(end.stock, item)
        == Increases(ops, item) - AllDecreases(EMPTY, ops, item) + Held(end.clients, lo, hi, item)
           + AllExchanged(EMPTY, ops, item) + AllOrphaned(EMPTY, ops, item) - AllMissing(EMPTY, ops, item)
  {
    hide Held, Level, Placed, RemovalsSucceed, Run, Increases, AllOrphaned, AllMissing, AllDecreases, AllExchanged;
    EmptyHolds(lo, hi);
    NothingAtFirst(item);
    RunBalances(EMPTY, ops, lo, hi, item);
  }

  /** Coupled operations neither decrease stock directly nor replace inventories. */
  lemma {:induction false} CoupledRuns(s: Store, ops: seq<Op>, lo: int, hi: int, item: int)
    requires forall op | op in ops :: Coupled(op, lo, hi)
    ensures AllDecreases(s, ops, item) == 0 && AllExchanged(s, ops, item) == 0
    ensures forall op | op in ops :: Placed(op, lo, hi)
    decreases ops
  {
    hide Step;
    if ops != [] {
      assert ops[0] in ops && forall op | op in ops[1..] :: op in ops;
      CoupledRuns(Step(s, ops[0]), ops[1..], lo, hi, item);
    }
  }

  ghost predicate NothingMissing(s: Store, ops: seq<Op>) {
    forall item :: AllMissing(s, ops, item) == 0
  }

  lemma {:induction false} CoveredRunsSucceed(s: Store, ops: seq<Op>, lo: int, hi: int)
    requires Covered(s, lo, hi) && NothingMissing(s, ops) && forall op | op in ops :: Coupled(op, lo, hi)
    ensures RemovalsSucceed(s, ops)
    decreases ops
  {
    hide Step, Held, Level, Missing, Coupled, NoneRefused, Events, Covered;
    if ops != [] {
      var next := Step(s, ops[0]);
      forall item ensures Missing(s, ops[0], item) == 0 && AllMissing(next, ops[1..], item) == 0 {
        assert AllMissing(s, ops, item) == Missing(s, ops[0], item) + AllMissing(next, ops[1..], item);
      }
      assert ops[0] in ops && forall op | op in ops[1..] :: op in ops;
      StepSucceeds(s, ops[0], lo, hi);
      StepStaysCovered(s, ops[0], lo, hi);
      CoveredRunsSucceed(next, ops[1..], lo, hi);
    }
  }

  lemma {:induction false} EmptyHolds(lo: int, hi: int)
    ensures Covered(EMPTY, lo, hi) && forall item :: Held(EMPTY.clients, lo, hi, item) == 0
    decreases hi - lo
  {
    if lo < hi {
      EmptyHolds(lo, hi - 1);
    }
  }

  /** What can be seen of an operation beforehand: every increase it makes has memory or a known item, and
      a removal that throws does so before its first positive entry. */
  predicate Unbroken(s: Store, op: Op) {
    match op
    case RemoveClient(id) => Fails(s, op) ==> forall a | a in Contents(s.clients[id]) :: a.1 <= 0
    case _ => AllRecorded(s.stock, Events(s, op))
  }

  predicate AllRecorded(stock: map<int, int>, es: seq<Event>)
    decreases es
  {
    es == []
    || ((es[0].Inc? && es[0].quantity > 0 ==> Recorded(stock, es[0])) && AllRecorded(Apply(stock, es[0]), es[1..]))
  }

  predicate AllUnbroken(s: Store, ops: seq<Op>)
    decreases ops
  {
    ops == [] || (Unbroken(s, ops[0]) && AllUnbroken(Step(s, ops[0]), ops[1..]))
  }

  lemma {:induction false} RecordedIsNotLost(stock: map<int, int>, es: seq<Event>, item: int)
    requires AllRecorded(stock, es)
    ensures Lost(stock, es, item) == 0
    decreases es
  {
    if es != [] {
      RecordedIsNotLost(Apply(stock, es[0]), es[1..], item);
    }
  }

  lemma {:induction false} NotRecordedIsLost(stock: map<int, int>, es: seq<Event>) returns (item: int)
    requires !AllRecorded(stock, es)
    ensures Lost(stock, es, item) > 0
    decreases es
  {
    if es[0].Inc? && es[0].quantity > 0 && !Recorded(stock, es[0]) {
      return es[0].item;
    }
    item := NotRecordedIsLost(Apply(stock, es[0]), es[1..]);
  }

  lemma {:induction false} NoneIsPositive(amounts: seq<(int, int)>, item: int)
    requires forall a | a in amounts :: a.1 <= 0
    ensures Positive(amounts, item) == 0
  {
    if amounts != [] {
      NoneIsPositive(amounts[1..], item);
    }
  }

  lemma {:induction false} OneIsPositive(amounts: seq<(int, int)>) returns (item: int)
    requires !forall a | a in amounts :: a.1 <= 0
    ensures Positive(amounts, item) > 0
  {
    assert amounts == [amounts[0]] + amounts[1..];
    if amounts[0].1 > 0 {
      return amounts[0].0;
    }
    item := OneIsPositive(amounts[1..]);
  }

  lemma UnbrokenMissesNothing(s: Store, op: Op, item: int)
    requires Unbroken(s, op)
    ensures Missing(s, op, item) == 0
  {
    hide AllRecorded, Lost, Positive, Contents, Events, Throws;
    match op
    case RemoveClient(id) =>
      if Fails(s, op) {
        NoneIsPositive(Contents(s.clients[id]), item);
      }
    case _ => RecordedIsNotLost(s.stock, Events(s, op), item);
  }

  lemma BrokenMissesSome(s: Store, op: Op) returns (item: int)
    requires !Unbroken(s, op)
    ensures Missing(s, op, item) > 0
  {
    hide AllRecorded, Lost, Positive, Contents, Events, Throws;
    match op
    case RemoveClient(id) => item := OneIsPositive(Contents(s.clients[id]));
    case _ => item := NotRecordedIsLost(s.stock, Events(s, op));
  }

  lemma {:induction false} UnbrokenRunsMissNothing(s: Store, ops: seq<Op>, item: int)
    requires AllUnbroken(s, ops)
    ensures AllMissing(s, ops, item) == 0
    decreases ops
  {
    hide Step, Missing, Unbroken;
    if ops != [] {
      UnbrokenMissesNothing(s, ops[0], item);
      UnbrokenRunsMissNothing(Step(s, ops[0]), ops[1..], item);
    }
  }

  lemma {:induction false} BrokenRunsMissSome(s: Store, ops: seq<Op>) returns (item: int)
    requires !AllUnbroken(s, ops)
    ensures AllMissing(s, ops, item) > 0
    decreases ops
  {
    hide Step, Missing, Unbroken;
    if !Unbroken(s, ops[0]) {
      item := BrokenMissesSome(s, ops[0]);
    } else {
      item := BrokenRunsMissSome(Step(s, ops[0]), ops[1..]);
    }
  }

  /** Over every run of addClient, removeClient and increaseStock: the decreases inside removeClient never
      fail and every level is what was brought in, plus the positive entries of all clients present, plus
      those of clients whose inventory was not kept, if and only if no entry of an increase is lost for want
      of memory and no removal throws after a positive entry. */
  lemma StockConservation(ops: seq<Op>, lo: int, hi: int)
    requires forall op | op in ops :: Coupled(op, lo, hi)
    ensures AllUnbroken(EMPTY, ops) <==> RemovalsSucceed(EMPTY, ops) && forall item :: Conserved(ops, lo, hi, item)
  {
    hide Held, Level, Coupled, AllUnbroken, RemovalsSucceed, Run, Increases, AllOrphaned, AllMissing;
    hide AllDecreases, AllExchanged;
    EmptyHolds(lo, hi);
    if AllUnbroken(EMPTY, ops) {
      forall item ensures AllMissing(EMPTY, ops, item) == 0 {
        UnbrokenRunsMissNothing(EMPTY, ops, item);
      }
      CoveredRunsSucceed(EMPTY, ops, lo, hi);
      forall item ensures Conserved(ops, lo, hi, item) {
        CoupledRuns(EMPTY, ops, lo, hi, item);
        RunBalances(EMPTY, ops, lo, hi, item);
        NothingAtFirst(item);
      }
    } else if RemovalsSucceed(EMPTY, ops) {
      var item := BrokenRunsMissSome(EMPTY, ops);
      CoupledRuns(EMPTY, ops, lo, hi, item);
      RunBalances(EMPTY, ops, lo, hi, item);
      NothingAtFirst(item);
      assert !Conserved(ops, lo, hi, item);
    }
  }

  lemma NothingAtFirst(item: int)
    ensures Level(EMPTY.stock, item) == 0
  {
  }

  /** With memory, and inventories whose names are readable, every run is unbroken. */
  lemma {:induction false} ReadableRunsAreUnbroken(s: Store, ops: seq<Op>)
    requires forall op | op in ops :: HadMemory(op) && !op.UpdateClient?
    requires forall op | op in ops && op.AddClient? :: !Throws(Listed(op.initial))
    requires forall id | id in s.clients :: !Throws(Listed(s.clients[id]))
    ensures AllUnbroken(s, ops)
    decreases ops
  {
    hide Throws, ApplyAll, AllRecorded, Contents;
    if ops != [] {
      assert ops[0] in ops && forall op | op in ops[1..] :: op in ops;
      var next := Step(s, ops[0]);
      if ops[0].AddClient? {
        KeptIsReadable(ops[0].initial, ops[0].memory);
        IncsAreRecorded(s.stock, Contents(ops[0].initial), ops[0].entries);
      }
      NothingToRecord(s.stock, ops[0]);
      ReadableRunsAreUnbroken(next, ops[1..]);
    }
  }

  lemma NothingToRecord(stock: map<int, int>, op: Op)
    ensures AllRecorded(stock, [])
    ensures op.IncreaseStock? && op.memory ==> AllRecorded(stock, [Inc(op.item, op.quantity, true)])
    ensures op.DecreaseStock? ==> AllRecorded(stock, [Dec(op.item, op.quantity)])
  {
  }

  lemma KeptIsReadable(initial: Option<J>, memory: bool)
    requires !Throws(Listed(initial))
    ensures !Throws(Listed(Kept(initial, memory)))
  {
    hide DepthOK;
  }

  lemma {:induction false} IncsAreRecorded(stock: map<int, int>, amounts: seq<(int, int)>, memory: seq<bool>)
    requires forall m | m in memory :: m
    ensures AllRecorded(stock, Incs(amounts, memory))
    decreases amounts
  {
    if amounts != [] {
      var rest := if memory == [] then [] else memory[1..];
      if memory != [] {
        assert memory[0] in memory;
        assert forall m | m in rest :: m in memory;
      }
      IncsAreRecorded(Apply(stock, Incs(amounts, memory)[0]), amounts[1..], rest);
    }
  }

  /** When no inventory is nested past the limit of the deep copy, and there is memory, there are no
      orphans. */
  lemma {:induction false} NoOrphans(s: Store, ops: seq<Op>, item: int)
    requires forall op | op in ops && op.AddClient? ::
      op.memory && (op.initial.Some? ==> DepthOK(op.initial.value, 0))
    ensures AllOrphaned(s, ops, item) == 0
    decreases ops
  {
    hide DepthOK, Step;
    if ops != [] {
      assert ops[0] in ops && forall op | op in ops[1..] :: op in ops;
      NoOrphans(Step(s, ops[0]), ops[1..], item);
    }
  }

  /** The run in which a client comes and goes, with memory for its stock entries. */
  function Visit(id: int, initial: Option<J>, memory: bool): seq<Op> {
    [AddClient(id, initial, memory, []), RemoveClient(id)]
  }

  /** A client that comes and goes leaves the stock as it was, also when its removal throws, except when
      the inventory could not be copied: then all its positive entries stay in stock for good. */
  lemma AddThenRemove(id: int, initial: Option<J>, memory: bool, item: int)
    ensures Level(Run(EMPTY, Visit(id, initial, memory)).stock, item)
      == if Kept(initial, memory) == None then Positive(Contents(initial), item) else 0
  {
    hide Kept, Contents, Positive, ApplyAll, Throws, Lost, Incs, Decs;
    var ops, amounts, kept := Visit(id, initial, memory), Contents(initial), Kept(initial, memory);
    var one := Step(EMPTY, ops[0]);
    assert ops[1..] == [ops[1]] && ops[1..][1..] == [];
    assert Run(EMPTY, ops) == Run(one, ops[1..]) == Run(Step(one, ops[1]), []);
    assert one == Store(ApplyAll(map[], Incs(amounts, [])), map[id := kept]);
    var taken := Contents(kept);
    KeptContents(initial, memory);
    forall i ensures Level(one.stock, i) == Positive(amounts, i) {
      IncsAdd(map[], amounts, [], i);
      NoneIsLost(map[], amounts, i);
    }
    NothingPositive();
    assert Covers(one.stock, taken);
    CoveredDecs(one.stock, taken);
    DecsTake(one.stock, taken, item);
  }

  lemma KeptContents(initial: Option<J>, memory: bool)
    ensures var kept := Kept(initial, memory);
      Contents(kept) == if kept == None then [] else Contents(initial)
  {
    hide DepthOK;
  }

  lemma NothingPositive()
    ensures forall item :: Positive([], item) == 0
  {
  }

  lemma NoneIsLost(stock: map<int, int>, amounts: seq<(int, int)>, item: int)
    ensures Lost(stock, Incs(amounts, []), item) == 0
  {
    IncsAreRecorded(stock, amounts, []);
    RecordedIsNotLost(stock, Incs(amounts, []), item);
  }

  /** An inventory of five of item 1, and of something nested one level too deep. */
  function TooDeep(): J {
    Obj([Member([ZERO + 1], Num(5.0)), Member([ZERO + 2], Deep(CIRCULAR_LIMIT))])
  }

  /** Stock is left behind: a client with that inventory comes and goes, and five of item 1 remain. */
  lemma StockIsLeftBehind(id: int)
    ensures Level(Run(EMPTY, Visit(id, Some(TooDeep()), true)).stock, 1) == 5
  {
    hide Run, Deep, Step, Contents, TooDeep, DepthOK;
    TooDeepIsNotCopied();
    TooDeepHoldsFive();
    AddThenRemove(id, Some(TooDeep()), true, 1);
    assert Positive([(1, 5)], 1) == 5 + Positive([], 1);
  }

  lemma TooDeepHoldsFive()
    ensures Contents(Some(TooDeep())) == [(1, 5)]
  {
    hide Deep, Stoi, ValueInt;
    var ms := TooDeep().members;
    OneIsRead();
    NestsAreNoNumbers();
    assert ms[1..] == [ms[1]] && ms[1..][1..] == [];
    assert Amounts(ms[1..]) == [] + Amounts([]);
    assert Amounts(ms) == [(1, 5)] + Amounts(ms[1..]);
  }

  lemma TooDeepIsNotCopied()
    ensures !DepthOK(TooDeep(), 0)
  {
    var ms := TooDeep().members;
    hide Deep;
    DeepIsTooDeep(CIRCULAR_LIMIT, 1);
    assert ms[1] in ms;
  }

  lemma NestsAreNoNumbers()
    ensures !Deep(CIRCULAR_LIMIT).Num?
  {
  }

  lemma OneIsRead()
    ensures Stoi([ZERO + 1]) == Some(1) && ValueInt(5.0) == 5
  {
    var s: Bytes := [ZERO + 1];
    assert Blanks(s, 0) == 0 && SignEnd(s, 0) == 0 && DigitsEnd(s, 0) == 1;
    assert DigitsValue(s, 0, 0) == 0;
    assert DigitsValue(s, 0, 1) == 1;
  }

  /** An inventory of five of item 1, and of one of an item without a number. */
  function HalfReadable(): J {
    Obj([Member([ZERO + 1], Num(5.0)), Member([LETTER_U], Num(1.0))])
  }

  /** A removal can throw: the five are taken out of stock, and the client that holds them stays. */
  lemma StockIsTakenForNothing(id: int)
    ensures var s := Run(EMPTY, Visit(id, Some(HalfReadable()), true));
      Level(s.stock, 1) == 0 && id in s.clients && Positive(Contents(s.clients[id]), 1) == 5
  {
    var j, ms := HalfReadable(), HalfReadable().members;
    var ops := Visit(id, Some(j), true);
    HalfIsCopied();
    OneIsRead();
    LetterIsNotRead();
    assert Throws(ms[1..]) && Throws(ms);
    assert Amounts(ms[1..]) == [] && Amounts(ms) == [(1, 5)] + Amounts(ms[1..]) == [(1, 5)];
    assert Positive([(1, 5)], 1) == 5 + Positive([(1, 5)][1..], 1);
    hide Stoi, Throws, Amounts, HalfReadable, DepthOK, ApplyAll;
    AddThenRemove(id, Some(j), true, 1);
    var one := Step(EMPTY, ops[0]);
    assert ops[1..] == [ops[1]] && ops[1..][1..] == [];
    assert Run(EMPTY, ops) == Run(one, ops[1..]) == Run(Step(one, ops[1]), []);
    assert one.clients == map[id := Some(j)];
  }

  lemma HalfIsCopied()
    ensures DepthOK(HalfReadable(), 0)
  {
  }

  lemma LetterIsNotRead()
    ensures Stoi([LETTER_U]) == None
  {
    var s: Bytes := [LETTER_U];
    assert Blanks(s, 0) == 0 && SignEnd(s, 0) == 0 && DigitsEnd(s, 0) == 0;
  }
}
