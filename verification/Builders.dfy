/** Creating nodes, and adding them to objects under a name. */
module Builders {
  import opened Bytes
  import opened Json
  import opened Nodes
  import opened TreeEdits
  import opened Chains

  /** A new tree that belongs to nobody. */
  ghost predicate Loose(item: Node, tree: J)
    reads item, item.owned
  {
    item.Valid() && item.tree == tree && item.next == null && item.prev == null && item !in item.owned
  }

  /** cJSON_CreateObject. */
  method CreateObject(hooks: Allocator) returns (item: Node?)
    modifies hooks
    ensures old(hooks.failed) ==> hooks.failed
    ensures item == null ==> hooks.live == old(hooks.live) && hooks.failed
    ensures item != null ==>
      fresh(item.Share()) && Loose(item, Obj([])) && item.kind == IsObject && item.key == null
      && hooks.live == old(hooks.live) + item.Share()
  {
    hide Node.Ready, Node.Valid, Pending;
    item := hooks.NewItem();
    if item != null {
      BlankIsPending(item);
      PendingParts(item);
      item.kind := IsObject;
      item.tree := Obj([]);
      EmptyIsValid(item);
    }
  }

  /** cJSON_CreateNumber. */
  method CreateNumber(number: real, hooks: Allocator) returns (item: Node?)
    modifies hooks
    ensures old(hooks.failed) ==> hooks.failed
    ensures item == null ==> hooks.live == old(hooks.live) && hooks.failed
    ensures item != null ==>
      fresh(item.Share()) && Loose(item, Num(number)) && item.kind == IsNumber && item.valuedouble == number
      && item.key == null && hooks.live == old(hooks.live) + item.Share()
  {
    hide Node.Ready, Node.Valid, Pending;
    item := hooks.NewItem();
    if item != null {
      BlankIsPending(item);
      PendingParts(item);
      item.kind := IsNumber;
      item.valuedouble := number;
      if number >= INT_MAX as real {
        item.valueint := INT_MAX;
      } else if number <= INT_MIN as real {
        item.valueint := INT_MIN;
      } else {
        item.valueint := if number >= 0.0 then number.Floor else -((-number).Floor);
      }
      item.tree := Num(number);
      LeafIsValid(item);
    }
  }

  /** What a whole tree is apart from its name. */
  ghost predicate Body(item: Node)
    reads item`kind, item`valuestring, item`valueint, item`valuedouble, item`child, item`children, item`tree
    reads item.valuestring
    reads item.children, Below(item.children)
    reads set n | n in item.children :: n.key
  {
    var nodes := item.children;
    Apart(nodes) && Linked(item.child, nodes) && Ring(nodes) && Suit(nodes, item.kind)
    && (forall n | n in nodes :: n.Valid() && n !in n.owned)
    && item !in Footprint(nodes)
    && (item.valuestring != null ==> IsText(item.valuestring) && item.valuestring !in Footprint(nodes))
    && item.Fits()
  }

  lemma BodyOf(item: Node)
    requires item.Valid()
    ensures Body(item) && item.owned == item.Strings() + Footprint(item.children)
    ensures item.key != null ==> item.key != item.valuestring && item.key !in Footprint(item.children)
    ensures Below(item.children) <= Footprint(item.children) && item !in Footprint(item.children)
    ensures forall n | n in item.children :: n in Footprint(item.children)
  {
    hide Node.Valid, Node.Ready, Node.Fits, Forest, IsText;
    ValidParts(item);
    OwnedParts(item);
    ValidFits(item);
    assert forall n | n in item.children :: n in n.Share() && n.owned <= n.Share();
    assert forall n | n in item.children :: n.Share() <= Footprint(item.children);
  }

  lemma ValidFits(item: Node)
    requires item.Valid()
    ensures Suit(item.children, item.kind) && item.Fits() && (item.valuestring != null ==> IsText(item.valuestring))
  {
    assert item.Ready();
  }

  lemma BodyIsValid(item: Node)
    requires Body(item) && item.owned == item.Strings() + Footprint(item.children) && item !in item.Strings()
    requires item.key != null ==>
      IsText(item.key) && item.key != item.valuestring
      && item.key !in Footprint(item.children)
    ensures item.Valid()
  {
    hide Node.Fits;
    forall c | c in item.children
      ensures c in item.owned && c.owned <= item.owned - {c} && item.valuestring !in c.owned && item.key !in c.owned
      ensures item.kind == IsObject ==> c.key in c.owned
    {
      assert c.Share() <= Footprint(item.children);
      assert c.Ready();
    }
    assert item.Ready();
  }

  /** Giving a tree another name changes nothing else about it. */
  method Rename(item: Node, key: array<byte>)
    requires item.Valid() && key !in item.owned && IsText(key)
    modifies item`key, item`owned
    ensures item.Valid() && item.key == key
    ensures item.owned == old(item.owned) - (if old(item.key) == null then {} else {old(item.key)}) + {key}
  {
    hide Node.Valid, Node.Ready, Body, Footprint, Below, IsText;
    BodyOf(item);
    item.key := key;
    item.owned := item.Strings() + Footprint(item.children);
    BodyIsValid(item);
  }

  /** The tree of a container with one more named child. */
  function WithNamed(kind: Kind, tree: J, name: Bytes, value: J): J {
    With(kind, tree, |Entries(tree)|, Member(if kind == IsArray then [] else name, value))
  }

  /** What of a tree is left when its name is dropped. */
  ghost function Unnamed(item: Node): set<object>
    reads item`owned, item`key
  {
    item.owned - (if item.key == null then {} else {item.key})
  }

  ghost predicate CanJoinAs(parent: Node, item: Node, hooks: Allocator)
    reads parent, parent.owned, item, item.owned, hooks
  {
    parent.Valid() && IsContainer(parent.kind) && item.Valid() && (parent.children != [] ==> item.next == null)
    && parent.Share() !! item.Share() && item.Share() <= hooks.live && hooks !in parent.Share() + item.Share()
  }

  /** add_item_to_object: the item gets a copy of the name, instead of any it had, and becomes the last
      child. If there is no memory for the name nothing changes. */
  method AddItemToObject(parent: Node?, name: array?<byte>, item: Node?, hooks: Allocator) returns (added: bool)
    requires name != null ==> IsText(name)
    requires parent != null && item != null && parent != item ==> CanJoinAs(parent, item, hooks)
    modifies One(parent)`child, One(parent)`children, One(parent)`owned, One(parent)`tree
    modifies Kids(parent)`next, Kids(parent)`prev, One(item)`next, One(item)`prev, One(item)`key, One(item)`owned, hooks
    ensures old(hooks.failed) ==> hooks.failed
    ensures added ==>
      parent != null && name != null && item != null && parent != item
      && item.key != null && fresh(item.key) && item.owned == old(Unnamed(item)) + {item.key}
      && Became(parent, old(parent.children) + [item], old(parent.owned) + item.Share(),
                old(WithNamed(parent.kind, parent.tree, TextOf(name), item.tree)))
      && hooks.live == old(hooks.live) - old(item.owned - Unnamed(item)) + {item.key}
    ensures !added ==>
      (parent == null || name == null || item == null || parent == item || hooks.failed)
      && hooks.live == old(hooks.live) && unchanged(One(parent), One(item), old(Kids(parent)))
      && (parent != null && old(parent.Valid()) && hooks !in old(parent.Share()) ==> parent.Valid())
  {
    hide Node.Valid, Node.Ready, Became, WithNamed, IsText, CString;
    if parent == null || name == null || item == null || parent == item {
      return false;
    }
    var newKey := Strdup(name, hooks);
    if newKey == null {
      return false;
    }
    AddNamed(parent, item, newKey, hooks);
    return true;
  }

  /** The part of add_item_to_object that cannot fail. */
  method AddNamed(parent: Node, item: Node, newKey: array<byte>, hooks: Allocator)
    requires CanJoinAs(parent, item, hooks) && IsText(newKey) && newKey !in item.owned + parent.owned
    modifies parent`child, parent`children, parent`owned, parent`tree, hooks`live
    modifies parent.children`next, parent.children`prev, item`next, item`prev, item`key, item`owned
    ensures item.key == newKey && item.owned == old(Unnamed(item)) + {item.key}
    ensures Became(parent, old(parent.children) + [item], old(parent.owned) + item.Share(),
                   old(WithNamed(parent.kind, parent.tree, TextOf(newKey), item.tree)))
    ensures hooks.live == old(hooks.live) - old(item.owned - Unnamed(item))
  {
    hide Node.Valid, Node.Ready, Became, WithEntries, Entries, IsText, CString;
    KeyIsOwned(item);
    if item.key != null {
      hooks.Free(item.key);
    }
    Rename(item, newKey);
    AddLast(parent, item);
  }

  lemma KeyIsOwned(item: Node)
    requires item.Valid()
    ensures item.key != null ==> item.key in item.owned
  {
    assert item.Ready();
  }

  /** cJSON_AddNumberToObject: null, with nothing changed or left allocated, if memory runs out. */
  method AddNumberToObject(parent: Node?, name: array?<byte>, number: real, hooks: Allocator) returns (item: Node?)
    requires name != null ==> IsText(name)
    requires parent != null ==> parent.Valid() && IsContainer(parent.kind) && hooks !in parent.Share()
    modifies One(parent)`child, One(parent)`children, One(parent)`owned, One(parent)`tree
    modifies Kids(parent)`next, Kids(parent)`prev, hooks
    ensures old(hooks.failed) ==> hooks.failed
    ensures item != null ==>
      parent != null && name != null && fresh(item.Share()) && hooks.live == old(hooks.live) + item.Share()
      && Became(parent, old(parent.children) + [item], old(parent.owned) + item.Share(),
                old(WithNamed(parent.kind, parent.tree, TextOf(name), Num(number))))
    ensures item == null ==>
      hooks.live == old(hooks.live)
      && (parent != null ==>
            (name == null || hooks.failed) && unchanged(parent) && unchanged(old(parent.children)) && parent.Valid())
  {
    hide Node.Valid, Node.Ready, Became, WithNamed, IsText, CString, Forest, Footprint;
    item := CreateNumber(number, hooks);
    var added := AddItemToObject(parent, name, item, hooks);
    if !added {
      if item != null {
        ValidIsReady(item);
        DeleteTree(item, hooks);
      }
      return null;
    }
  }
}
