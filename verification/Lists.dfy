/** Child lists: appending, inserting, detaching and replacing, as operations on sequences. */
module Lists {
  import opened Nodes

  ghost predicate Distinct(nodes: seq<Node>) {
    forall i, k :: 0 <= i < k < |nodes| ==> nodes[i] != nodes[k]
  }

  function RemoveAt(s: seq<Node>, k: nat): (r: seq<Node>)
    requires k < |s|
    ensures |r| == |s| - 1
    ensures forall i :: 0 <= i < |r| ==> r[i] == s[if i < k then i else i + 1]
  {
    s[..k] + s[k + 1..]
  }

  function InsertAt(s: seq<Node>, k: nat, x: Node): (r: seq<Node>)
    requires k <= |s|
    ensures |r| == |s| + 1 && r[k] == x
    ensures forall i :: 0 <= i < |s| ==> r[if i < k then i else i + 1] == s[i]
  {
    s[..k] + [x] + s[k..]
  }

  lemma DistinctPrefix(nodes: seq<Node>, x: Node)
    requires Distinct(nodes + [x])
    ensures Distinct(nodes)
  {
    forall i, k | 0 <= i < k < |nodes| ensures nodes[i] != nodes[k] {
      assert (nodes + [x])[i] == nodes[i] && (nodes + [x])[k] == nodes[k];
    }
  }

  // ---- the links of a list, as sequences of pointers ----

  ghost predicate Nexts(nodes: seq<Node>, values: seq<Node?>)
    reads nodes`next
  {
    |values| == |nodes| && forall j {:trigger nodes[j].next} {:trigger values[j]} :: 0 <= j < |nodes| ==>
      nodes[j].next == values[j]
  }

  ghost predicate Prevs(nodes: seq<Node>, values: seq<Node?>)
    reads nodes`prev
  {
    |values| == |nodes| && forall j {:trigger nodes[j].prev} {:trigger values[j]} :: 0 <= j < |nodes| ==>
      nodes[j].prev == values[j]
  }

  ghost function Afters(nodes: seq<Node>): (r: seq<Node?>)
    ensures |r| == |nodes| && forall j {:trigger r[j]} :: 0 <= j < |nodes| ==> r[j] == After(nodes, j)
  {
    seq(|nodes|, j requires 0 <= j < |nodes| => After(nodes, j))
  }

  ghost function Befores(nodes: seq<Node>): (r: seq<Node?>)
    ensures |r| == |nodes| && forall j {:trigger r[j]} :: 0 <= j < |nodes| ==> r[j] == Before(nodes, j)
  {
    seq(|nodes|, j requires 0 <= j < |nodes| => Before(nodes, j))
  }

  /** A store to the `next` of the `k`-th node. */
  method SetNext(n: Node, value: Node?, ghost nodes: seq<Node>, ghost values: seq<Node?>, ghost k: nat)
    requires Distinct(nodes) && k < |nodes| && n == nodes[k] && Nexts(nodes, values)
    modifies n`next
    ensures Nexts(nodes, values[k := value]) && n.next == value
  {
    n.next := value;
  }

  /** A store to the `prev` of the `k`-th node. */
  method SetPrev(n: Node, value: Node?, ghost nodes: seq<Node>, ghost values: seq<Node?>, ghost k: nat)
    requires Distinct(nodes) && k < |nodes| && n == nodes[k] && Prevs(nodes, values)
    modifies n`prev
    ensures Prevs(nodes, values[k := value]) && n.prev == value
  {
    n.prev := value;
  }

  /** The links of cJSON_DetachItemViaPointer. */
  method Unlink(parent: Node, item: Node, ghost nodes: seq<Node>, ghost k: nat)
    requires Linked(parent.child, nodes) && Ring(nodes) && Distinct(nodes) && k < |nodes| && item == nodes[k]
    modifies parent`child, nodes`next, nodes`prev
    ensures Linked(parent.child, RemoveAt(nodes, k)) && Ring(RemoveAt(nodes, k))
    ensures item.next == null && item.prev == null
  {
    hide Nexts, Prevs, Linked, Ring, RemoveAt, Distinct;
    ghost var ns, ps := Afters(nodes), Befores(nodes);
    ghost var next, prev := After(nodes, k), Before(nodes, k);
    LinksAt(parent.child, nodes, k);
    if item != parent.child {
      SetNext(item.prev, item.next, nodes, ns, k - 1);
      ns := ns[k - 1 := next];
    }
    if item.next != null {
      SetPrev(item.next, item.prev, nodes, ps, k + 1);
      ps := ps[k + 1 := prev];
    }
    if item == parent.child {
      parent.child := item.next;
    } else if item.next == null {
      SetPrev(parent.child, item.prev, nodes, ps, 0);
      ps := ps[0 := prev];
    }
    SetPrev(item, null, nodes, ps, k);
    SetNext(item, null, nodes, ns, k);
    UnlinkedNext(parent.child, nodes, k, ns[k := null]);
    UnlinkedPrev(nodes, k, ps[k := null]);
  }

  /** The links of a list as sequences, those at `k`, and the last node. */
  lemma LinksAt(first: Node?, nodes: seq<Node>, k: nat)
    requires Linked(first, nodes) && Ring(nodes) && Distinct(nodes) && k < |nodes|
    ensures Nexts(nodes, Afters(nodes)) && Prevs(nodes, Befores(nodes))
    ensures nodes[k].next == After(nodes, k) && nodes[k].prev == Before(nodes, k)
    ensures first == nodes[0] && (nodes[k] == first <==> k == 0)
    ensures nodes[0].prev == nodes[|nodes| - 1] && (nodes[|nodes| - 1] == first <==> |nodes| == 1)
  {
  }

  /** The same with a node that is about to join. */
  lemma LinksWith(first: Node?, nodes: seq<Node>, item: Node)
    requires Linked(first, nodes) && Ring(nodes) && Distinct(nodes + [item])
    ensures Distinct(nodes) && item !in nodes
    ensures Nexts(nodes + [item], Afters(nodes) + [item.next]) && Prevs(nodes + [item], Befores(nodes) + [item.prev])
  {
    DistinctPrefix(nodes, item);
    assert (nodes + [item])[|nodes|] == item && forall i :: 0 <= i < |nodes| ==> nodes[i] == (nodes + [item])[i];
  }

  lemma UnlinkedNext(first: Node?, nodes: seq<Node>, k: nat, ns: seq<Node?>)
    requires k < |nodes| && Nexts(nodes, ns)
    requires first == if k == 0 then After(nodes, 0) else nodes[0]
    requires ns == (if k > 0 then Afters(nodes)[k - 1 := After(nodes, k)] else Afters(nodes))[k := null]
    ensures Linked(first, RemoveAt(nodes, k))
  {
    hide RemoveAt;
    var rest := RemoveAt(nodes, k);
    forall i | 0 <= i < |rest| ensures rest[i].next == After(rest, i) {
      var j := if i < k then i else i + 1;
      assert rest[i] == nodes[j] && nodes[j].next == ns[j];
    }
  }

  lemma UnlinkedPrev(nodes: seq<Node>, k: nat, ps: seq<Node?>)
    requires k < |nodes| && Prevs(nodes, ps)
    requires ps == (if k + 1 < |nodes| then Befores(nodes)[k + 1 := Before(nodes, k)]
                    else if k > 0 then Befores(nodes)[0 := Before(nodes, k)] else Befores(nodes))[k := null]
    ensures Ring(RemoveAt(nodes, k))
  {
    hide RemoveAt;
    var rest := RemoveAt(nodes, k);
    forall i | 0 <= i < |rest| ensures rest[i].prev == Before(rest, i) {
      var j := if i < k then i else i + 1;
      assert rest[i] == nodes[j] && nodes[j].prev == ps[j];
    }
  }

  /** suffix_object. */
  method SuffixObject(prev: Node, item: Node, ghost nodes: seq<Node>, ghost ns: seq<Node?>, ghost ps: seq<Node?>,
      ghost k: nat)
    requires Distinct(nodes) && k + 1 < |nodes| && prev == nodes[k] && item == nodes[|nodes| - 1]
    requires Nexts(nodes, ns) && Prevs(nodes, ps)
    modifies prev`next, item`prev
    ensures Nexts(nodes, ns[k := item]) && Prevs(nodes, ps[|nodes| - 1 := prev])
  {
    SetNext(prev, item, nodes, ns, k);
    SetPrev(item, prev, nodes, ps, |nodes| - 1);
  }

  /** The links of add_item_to_array. */
  method LinkLast(parent: Node, item: Node, ghost nodes: seq<Node>)
    requires Linked(parent.child, nodes) && Ring(nodes) && Distinct(nodes + [item])
    requires nodes != [] ==> item.next == null
    modifies parent`child, nodes`next, nodes`prev, item`next, item`prev
    ensures Linked(parent.child, nodes + [item]) && Ring(nodes + [item])
  {
    hide Nexts, Prevs, Linked, Ring, Distinct;
    ghost var all, n := nodes + [item], |nodes|;
    ghost var ns, ps := Afters(nodes) + [item.next], Befores(nodes) + [item.prev];
    LinksWith(parent.child, nodes, item);
    FirstLink(parent.child, nodes);
    var child := parent.child;
    if child == null {
      parent.child := item;
      SetPrev(item, item, all, ps, n);
      SetNext(item, null, all, ns, n);
    } else {
      if child.prev != null {
        ghost var last := child.prev;
        SuffixObject(child.prev, item, all, ns, ps, n - 1);
        SetPrev(parent.child, item, all, ps[n := last], 0);
      }
    }
    AppendedLinks(parent.child, nodes, item, if n == 0 then ns[0 := null] else ns[n - 1 := item],
                  if n == 0 then ps[0 := item] else ps[n := nodes[n - 1]][0 := item]);
  }

  lemma FirstLink(first: Node?, nodes: seq<Node>)
    requires Linked(first, nodes) && Ring(nodes)
    ensures first == null <==> nodes == []
    ensures nodes != [] ==> first == nodes[0] && nodes[0].prev == nodes[|nodes| - 1]
  {
  }

  lemma AppendedLinks(first: Node?, nodes: seq<Node>, item: Node, ns: seq<Node?>, ps: seq<Node?>)
    requires var n, all := |nodes|, nodes + [item];
      Nexts(all, ns) && Prevs(all, ps) && first == all[0]
      && ns == (if n == 0 then [null] else Afters(nodes)[n - 1 := item] + [null])
      && ps == (if n == 0 then [item] else Befores(nodes)[0 := item] + [nodes[n - 1]])
    ensures Linked(first, nodes + [item]) && Ring(nodes + [item])
  {
    var all := nodes + [item];
    forall i | 0 <= i < |all| ensures all[i].next == After(all, i) && all[i].prev == Before(all, i) {
      assert all[i].next == ns[i] && all[i].prev == ps[i];
    }
  }

  /** The links of cJSON_InsertItemInArray, before the node `after`. */
  method LinkBefore(parent: Node, after: Node, item: Node, ghost nodes: seq<Node>, ghost k: nat)
    requires Linked(parent.child, nodes) && Ring(nodes) && Distinct(nodes + [item])
    requires k < |nodes| && after == nodes[k]
    modifies parent`child, nodes`next, nodes`prev, item`next, item`prev
    ensures Linked(parent.child, InsertAt(nodes, k, item)) && Ring(InsertAt(nodes, k, item))
  {
    hide Nexts, Prevs, Linked, Ring, Distinct, InsertAt;
    ghost var all, n := nodes + [item], |nodes|;
    ghost var ns, ps := Afters(nodes) + [item.next], Befores(nodes) + [item.prev];
    ghost var before := Before(nodes, k);
    LinksWith(parent.child, nodes, item);
    LinksAt(parent.child, nodes, k);
    assert before == all[Pred(k, n)];
    SetNext(item, after, all, ns, n);
    SetPrev(item, after.prev, all, ps, n);
    SetPrev(after, item, all, ps[n := before], k);
    ns, ps := ns[n := after], ps[n := before][k := item];
    if after == parent.child {
      parent.child := item;
    } else {
      SetNext(item.prev, item, all, ns, k - 1);
      ns := ns[k - 1 := item];
    }
    InsertedLinks(parent.child, nodes, k, item, ns, ps);
  }

  lemma InsertedLinks(first: Node?, nodes: seq<Node>, k: nat, item: Node, ns: seq<Node?>, ps: seq<Node?>)
    requires k < |nodes| && Nexts(nodes + [item], ns) && Prevs(nodes + [item], ps)
    requires first == if k == 0 then item else nodes[0]
    requires ns == (if k > 0 then Afters(nodes)[k - 1 := item] else Afters(nodes)) + [nodes[k]]
    requires ps == Befores(nodes)[k := item] + [Before(nodes, k)]
    ensures Linked(first, InsertAt(nodes, k, item)) && Ring(InsertAt(nodes, k, item))
  {
    var all := nodes + [item];
    var r := InsertAt(nodes, k, item);
    forall i | 0 <= i < |r| ensures r[i].next == After(r, i) && r[i].prev == Before(r, i) {
      var j := if i < k then i else if i == k then |nodes| else i - 1;
      assert r[i] == all[j] && all[j].next == ns[j] && all[j].prev == ps[j];
    }
  }

  /** The links of cJSON_ReplaceItemViaPointer. */
  method LinkInstead(parent: Node, item: Node, replacement: Node, ghost nodes: seq<Node>, ghost k: nat)
    requires Linked(parent.child, nodes) && Ring(nodes) && Distinct(nodes + [replacement])
    requires k < |nodes| && item == nodes[k]
    modifies parent`child, nodes`next, nodes`prev, replacement`next, replacement`prev
    ensures Linked(parent.child, nodes[k := replacement]) && Ring(nodes[k := replacement])
    ensures item.next == null && item.prev == null
  {
    hide Nexts, Prevs, Linked, Ring, Distinct;
    ghost var all, n := nodes + [replacement], |nodes|;
    ghost var ns, ps := Afters(nodes) + [replacement.next], Befores(nodes) + [replacement.prev];
    ghost var next, prev := After(nodes, k), Before(nodes, k);
    Overwrite(Afters(nodes), replacement.next, next);
    Overwrite(Befores(nodes), replacement.prev, prev);
    LinksWith(parent.child, nodes, replacement);
    LinksAt(parent.child, nodes, k);
    assert prev == all[Pred(k, n)];
    SetNext(replacement, item.next, all, ns, n);
    SetPrev(replacement, item.prev, all, ps, n);
    ns, ps := Afters(nodes) + [next], Befores(nodes) + [prev];
    if replacement.next != null {
      SetPrev(replacement.next, replacement, all, ps, k + 1);
      ps := ps[k + 1 := replacement];
    }
    if parent.child == item {
      if parent.child.prev == parent.child {
        SetPrev(replacement, replacement, all, ps, n);
        ps := ps[n := replacement];
      }
      parent.child := replacement;
    } else {
      if replacement.prev != null {
        SetNext(replacement.prev, replacement, all, ns, k - 1);
        ns := ns[k - 1 := replacement];
      }
      if replacement.next == null {
        SetPrev(parent.child, replacement, all, ps, 0);
        ps := ps[0 := replacement];
      }
    }
    SetNext(item, null, all, ns, k);
    SetPrev(item, null, all, ps, k);
    ReplacedLinks(parent.child, nodes, k, replacement, ns[k := null], ps[k := null]);
  }

  lemma Overwrite(s: seq<Node?>, a: Node?, b: Node?)
    ensures (s + [a])[|s| := b] == s + [b]
  {
  }

  lemma ReplacedLinks(first: Node?, nodes: seq<Node>, k: nat, item: Node, ns: seq<Node?>, ps: seq<Node?>)
    requires k < |nodes| && Nexts(nodes + [item], ns) && Prevs(nodes + [item], ps)
    requires first == if k == 0 then item else nodes[0]
    requires var base := Afters(nodes) + [After(nodes, k)];
      ns == (if k > 0 then base[k - 1 := item] else base)[k := null]
    requires var n, base := |nodes|, Befores(nodes) + [Before(nodes, k)];
      ps == (if n == 1 then base[n := item]
             else if k + 1 < n then base[k + 1 := item]
             else base[0 := item])[k := null]
    ensures Linked(first, nodes[k := item]) && Ring(nodes[k := item])
  {
    var all := nodes + [item];
    var r := nodes[k := item];
    forall i | 0 <= i < |r| ensures r[i].next == After(r, i) && r[i].prev == Before(r, i) {
      var j := if i == k then |nodes| else i;
      assert r[i] == all[j] && all[j].next == ns[j] && all[j].prev == ps[j];
    }
  }
}
