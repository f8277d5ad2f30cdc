/** cJSON_Compare on nodes: the walk over child lists and names decides the comparison of trees. */
module NodeCompare {
  import opened Bytes
  import opened Json
  import opened Compare
  import opened Nodes
  import opened Lookups
  import opened TreeEdits

  // ---- two nodes that may overlap ----

  lemma ChildrenBelow(a: Node)
    requires a.Valid()
    ensures forall c | c in a.children :: c.Valid() && c.Share() <= a.owned && c.owned < a.owned
  {
    hide Node.Valid;
    forall c | c in a.children ensures c.Valid() && c.Share() <= a.owned && c.owned < a.owned {
      ChildIsBelow(a, c);
    }
  }

  /** `b` is a child of `a`, or a child of a child, and so on. */
  ghost predicate Within(b: Node, a: Node)
    requires a.Valid()
    reads a, a.owned
    decreases a.owned
  {
    ChildrenBelow(a);
    exists c | c in a.children :: c == b || Within(b, c)
  }

  /** Whole trees that are the same, apart, or one inside the other: all that can be when every node has
      one owner. */
  ghost predicate Related(a: Node, b: Node)
    reads a, a.owned, b, b.owned
  {
    a.Valid() && b.Valid() && (a == b || a.Share() !! b.Share() || Within(a, b) || Within(b, a))
  }

  lemma {:induction false} WithinIsOwned(b: Node, a: Node)
    requires a.Valid() && Within(b, a)
    ensures b.Share() <= a.owned && b.Valid()
    decreases a.owned
  {
    hide Node.Valid;
    ChildrenBelow(a);
    var c :| c in a.children && (c == b || Within(b, c));
    if c != b {
      WithinIsOwned(b, c);
    }
  }

  lemma {:induction false} ChildIsWithin(y: Node, b: Node, c: Node)
    requires c.Valid() && b.Valid() && (c == b || Within(b, c)) && y in b.children
    ensures Within(y, c)
    decreases c.owned
  {
    hide Node.Valid;
    ChildrenBelow(c);
    if c != b {
      var d :| d in c.children && (d == b || Within(b, d));
      ChildIsWithin(y, b, d);
    }
  }

  /** Children of two different nodes are different, and again apart or one inside the other. */
  lemma ChildrenRelated(a: Node, b: Node, x: Node, y: Node)
    requires Related(a, b) && a != b && x in a.children && y in b.children
    ensures x != y && Related(x, y)
  {
    hide Node.Valid, Within;
    ChildrenBelow(a);
    ChildrenBelow(b);
    ValidParts(x);
    ValidParts(y);
    if !(a.Share() !! b.Share()) {
      if Within(b, a) {
        InsideRelated(a, b, x, y);
      } else {
        InsideRelated(b, a, y, x);
      }
    }
  }

  lemma InsideRelated(a: Node, b: Node, x: Node, y: Node)
    requires a.Valid() && b.Valid() && Within(b, a) && x in a.children && y in b.children
    ensures x != y && x.Valid() && y.Valid() && (x.Share() !! y.Share() || Within(y, x))
  {
    ChildrenBelow(a);
    ChildrenBelow(b);
    var c :| c in a.children && (c == b || Within(b, c));
    ChildIsWithin(y, b, c);
    WithinIsOwned(y, c);
    ValidParts(a);
    ValidParts(c);
    hide Node.Valid, Within;
    if x != c {
      SharesApart(a.children, x, c);
    }
  }

  // ---- the code ----

  lemma {:induction false} ElementIsSmaller(xs: seq<J>, k: nat)
    requires k < |xs|
    ensures Size(xs[k]) <= ElementsSize(xs)
  {
    if k > 0 {
      ElementIsSmaller(xs[1..], k - 1);
    }
  }

  lemma ChildIsSmaller(a: Node, x: Node)
    requires a.Valid() && x in a.children
    ensures Size(x.tree) < Size(a.tree)
  {
    hide Node.Valid, TextOf;
    var k :| 0 <= k < |a.children| && a.children[k] == x;
    ChildParts(a, k);
    if a.kind == IsArray {
      ElementIsSmaller(a.tree.elements, k);
    } else {
      MemberIsSmaller(a.tree.members, a.tree.members[k]);
    }
  }

  /** cJSON_Compare. A node equals itself whatever it holds; below two different nodes no such pair comes
      up, so that the shortcut decides only the call itself. */
  method CompareNodes(a: Node?, b: Node?, caseSensitive: bool) returns (equal: bool)
    requires a != null && b != null ==> Related(a, b)
    ensures equal == (a != null && b != null && (a == b || Compare.Compare(a.tree, b.tree, caseSensitive)))
    decreases if a == null || b == null then 0 else Size(a.tree) + Size(b.tree), 2
  {
    if a == null || b == null || a.kind != b.kind {
      if a != null && b != null {
        KindsDiffer(a, b, caseSensitive);
      }
      return false;
    }
    ValidTree(a);
    ValidTree(b);
    hide Node.Valid, Within, Trees, Nodes.Members, CompareElements, CompareMembers, CString, Size;
    if a == b {
      return true;
    }
    match a.kind
    case IsFalse => return true;
    case IsTrue => return true;
    case IsNull => return true;
    case IsNumber => return CompareDouble(a.valuedouble, b.valuedouble);
    case IsString => return TextOf(a.valuestring) == TextOf(b.valuestring);
    case IsArray => equal := CompareArrays(a, b, caseSensitive);
    case IsObject =>
      equal := ComparePass(a, b, caseSensitive);
      if equal {
        equal := ComparePass(b, a, caseSensitive);
      }
    case Invalid => assert false;
  }

  lemma KindsDiffer(a: Node, b: Node, caseSensitive: bool)
    requires a.Valid() && b.Valid() && a.kind != b.kind
    ensures !Compare.Compare(a.tree, b.tree, caseSensitive)
  {
    hide Node.Valid;
    ValidTree(a);
    ValidTree(b);
  }

  lemma ElementsAt(xs: seq<J>, ys: seq<J>, k: nat, caseSensitive: bool)
    requires k <= |xs| && k <= |ys|
    ensures CompareElements(xs[k..], ys[k..], caseSensitive) ==
      if k < |xs| && k < |ys| then Compare.Compare(xs[k], ys[k], caseSensitive)
        && CompareElements(xs[k + 1..], ys[k + 1..], caseSensitive)
      else |xs| == |ys|
  {
    if k < |xs| && k < |ys| {
      assert xs[k..][1..] == xs[k + 1..] && ys[k..][1..] == ys[k + 1..];
    }
  }

  /** The loop over two arrays. */
  method CompareArrays(a: Node, b: Node, caseSensitive: bool) returns (equal: bool)
    requires Related(a, b) && a != b && a.kind == IsArray && b.kind == IsArray && a.tree.Arr? && b.tree.Arr?
    ensures equal == CompareElements(a.tree.elements, b.tree.elements, caseSensitive)
    decreases Size(a.tree) + Size(b.tree), 1
  {
    hide Node.Valid, Within, CompareElements, Compare.Compare, Size, Linked;
    ghost var xs, ys := a.tree.elements, b.tree.elements;
    ArrayParts(a);
    ArrayParts(b);
    var x, y := a.child, b.child;
    ghost var k := 0;
    assert xs[0..] == xs && ys[0..] == ys;
    while x != null && y != null
      invariant k <= |xs| && k <= |ys|
      invariant x == (if k < |xs| then a.children[k] else null) && y == (if k < |ys| then b.children[k] else null)
      invariant CompareElements(xs, ys, caseSensitive) == CompareElements(xs[k..], ys[k..], caseSensitive)
      decreases |xs| - k
    {
      ElementsAt(xs, ys, k, caseSensitive);
      ChildrenRelated(a, b, x, y);
      ChildIsSmaller(a, x);
      ChildIsSmaller(b, y);
      equal := CompareNodes(x, y, caseSensitive);
      if !equal {
        return false;
      }
      NextOf(a.child, a.children, k);
      NextOf(b.child, b.children, k);
      x, y := x.next, y.next;
      k := k + 1;
    }
    ElementsAt(xs, ys, k, caseSensitive);
    equal := x == y;
    if k < |xs| || k < |ys| {
      DifferentEnds(a, b, x, y, k);
    }
  }

  /** When one list has ended and the other has not, the cursors differ. */
  lemma DifferentEnds(a: Node, b: Node, x: Node?, y: Node?, k: nat)
    requires (x == null || y == null) && (k < |a.children| || k < |b.children|)
    requires k <= |a.children| && k <= |b.children|
    requires x == (if k < |a.children| then a.children[k] else null)
      && y == (if k < |b.children| then b.children[k] else null)
    ensures x != y && |a.children| != |b.children|
  {
  }

  lemma ArrayParts(a: Node)
    requires a.Valid() && a.kind == IsArray
    ensures a.tree.Arr? && |a.tree.elements| == |a.children| && Linked(a.child, a.children)
    ensures forall k :: 0 <= k < |a.children| ==> a.tree.elements[k] == a.children[k].tree
    ensures a.child == if a.children == [] then null else a.children[0]
  {
    hide Node.Valid;
    ValidTree(a);
    ChildrenLinked(a);
  }

  lemma ObjectParts(a: Node)
    requires a.Valid() && a.kind == IsObject
    ensures a.tree.Obj? && |a.tree.members| == |a.children| && Linked(a.child, a.children)
    ensures forall c | c in a.children :: c.key != null && IsText(c.key)
    ensures forall k :: 0 <= k < |a.children| ==>
      a.tree.members[k] == Member(TextOf(a.children[k].key), a.children[k].tree)
    ensures a.child == if a.children == [] then null else a.children[0]
  {
    hide Node.Valid, CString, IsText;
    ValidTree(a);
    ChildrenLinked(a);
    ChildrenBelow(a);
    forall c | c in a.children ensures c.key != null && IsText(c.key) {
      NameIsText(c);
    }
  }

  /** One pass over the members of an object. */
  method ComparePass(a: Node, b: Node, caseSensitive: bool) returns (equal: bool)
    requires Related(a, b) && a != b && a.kind == IsObject && b.kind == IsObject && a.tree.Obj? && b.tree.Obj?
    ensures equal == CompareMembers(a.tree.members, b.tree.members, caseSensitive)
    decreases Size(a.tree) + Size(b.tree), 1
  {
    hide Node.Valid, Within, CompareMember, Compare.Compare, Size, Linked, CString, IsText;
    ghost var ms, ns := a.tree.members, b.tree.members;
    ObjectParts(a);
    var x := a.child;
    ghost var k := 0;
    while x != null
      invariant k <= |ms| && x == (if k < |ms| then a.children[k] else null)
      invariant forall i :: 0 <= i < k ==> CompareMember(ms[i], ms, ns, caseSensitive)
      decreases |ms| - k
    {
      assert ms[k] in ms;
      equal := CompareOne(a, b, x, k, caseSensitive);
      if !equal {
        return false;
      }
      NextOf(a.child, a.children, k);
      x := x.next;
      k := k + 1;
    }
    return true;
  }

  /** The lookup and comparison of one member in a pass. */
  method CompareOne(a: Node, b: Node, x: Node, ghost k: nat, caseSensitive: bool) returns (equal: bool)
    requires Related(a, b) && a != b && a.kind == IsObject && b.kind == IsObject && a.tree.Obj? && b.tree.Obj?
    requires k < |a.children| == |a.tree.members| && x == a.children[k]
    ensures equal == CompareMember(a.tree.members[k], a.tree.members, b.tree.members, caseSensitive)
    decreases Size(a.tree) + Size(b.tree), 0
  {
    hide Node.Valid, Within, Compare.Compare, Size, Linked, CString, IsText, Find, FirstStop;
    ObjectParts(a);
    assert a.tree.members[k] in a.tree.members;
    var y;
    ghost var n;
    ValidIsSearchable(b);
    y, n := ObjectItem(b, x.key, caseSensitive);
    SearchIsFind(b, n, TextOf(x.key), caseSensitive);
    if y == null {
      return false;
    }
    ChildrenRelated(a, b, x, y);
    ChildIsSmaller(a, x);
    ChildIsSmaller(b, y);
    equal := CompareNodes(x, y, caseSensitive);
  }
}
