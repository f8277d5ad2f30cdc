/** Finding the child with a given name. */
module Lookups {
  import opened Bytes
  import opened Json
  import opened Compare
  import opened Nodes
  import opened TreeEdits

  /** The difference of the first two characters, terminators included, that differ up to case. */
  function Difference(s: Bytes, t: Bytes): int
    decreases |s|
  {
    if s == [] then (if t == [] then 0 else 0 - ToLower(t[0]))
    else if t == [] then ToLower(s[0]) as int
    else if ToLower(s[0]) == ToLower(t[0]) then Difference(s[1..], t[1..])
    else ToLower(s[0]) - ToLower(t[0])
  }

  lemma {:induction false} DifferenceIsFold(s: Bytes, t: Bytes)
    requires NulFree(s) && NulFree(t)
    ensures Difference(s, t) == 0 <==> Fold(s, false) == Fold(t, false)
    decreases |s|
  {
    if s != [] && t != [] {
      DifferenceIsFold(s[1..], t[1..]);
      FoldApart(s);
      FoldApart(t);
    }
  }

  lemma FoldApart(s: Bytes)
    requires s != []
    ensures Fold(s, false)[0] == ToLower(s[0]) && Fold(s, false)[1..] == Fold(s[1..], false)
    ensures Fold(s, false) == [ToLower(s[0])] + Fold(s[1..], false)
  {
  }

  lemma SameSoFar(s: Bytes, t: Bytes, i: nat)
    requires i < |s| && i < |t|
    ensures Difference(s[i..], t[i..]) ==
      if ToLower(s[i]) == ToLower(t[i]) then Difference(s[i + 1..], t[i + 1..]) else ToLower(s[i]) - ToLower(t[i])
  {
    assert s[i..][1..] == s[i + 1..] && t[i..][1..] == t[i + 1..];
  }

  lemma OneEnds(s: Bytes, t: Bytes, i: nat)
    requires i <= |s| && i <= |t| && (i == |s| || i == |t|)
    ensures Difference(s[i..], t[i..]) ==
      (if i < |s| then ToLower(s[i]) as int else 0) - (if i < |t| then ToLower(t[i]) as int else 0)
  {
  }

  /** case_insensitive_strcmp: 0 exactly for strings equal up to case, 1 when there is a null pointer. */
  method CaseInsensitiveStrcmp(string1: array?<byte>, string2: array?<byte>) returns (order: int)
    requires string1 != null ==> IsText(string1)
    requires string2 != null ==> IsText(string2)
    ensures string1 == null || string2 == null ==> order == 1
    ensures string1 != null && string2 != null ==> order == Difference(TextOf(string1), TextOf(string2))
    ensures order == 0 <==>
      string1 != null && string2 != null && Fold(TextOf(string1), false) == Fold(TextOf(string2), false)
  {
    hide Fold, CString, Difference;
    if string1 == null || string2 == null {
      return 1;
    }
    ghost var s, t := TextOf(string1), TextOf(string2);
    DifferenceIsFold(s, t);
    if string1 == string2 {
      return 0;
    }
    CStringBytes(string1[..]);
    CStringBytes(string2[..]);
    assert s[0..] == s && t[0..] == t;
    var i := 0;
    while ToLower(string1[i]) == ToLower(string2[i])
      invariant i <= |s| && i <= |t| && Difference(s, t) == Difference(s[i..], t[i..])
      decreases |s| - i
    {
      if string1[i] == NUL {
        OneEnds(s, t, i);
        return 0;
      }
      SameSoFar(s, t, i);
      i := i + 1;
    }
    if i == |s| || i == |t| {
      OneEnds(s, t, i);
    } else {
      SameSoFar(s, t, i);
    }
    return ToLower(string1[i]) - ToLower(string2[i]);
  }

  /** Where the search of get_object_item ends: a name that matches or, when case matters, a child
      without a name. */
  ghost predicate Stops(n: Node, name: Bytes, caseSensitive: bool)
    reads n`key, n.key
  {
    if n.key == null then caseSensitive else Fold(TextOf(n.key), caseSensitive) == Fold(name, caseSensitive)
  }

  ghost predicate FirstStop(nodes: seq<Node>, k: nat, name: Bytes, caseSensitive: bool)
    reads nodes`key, set n | n in nodes :: n.key
  {
    k <= |nodes| && (forall i :: 0 <= i < k ==> !Stops(nodes[i], name, caseSensitive))
    && (k < |nodes| ==> Stops(nodes[k], name, caseSensitive))
  }

  /** The child the search of get_object_item returns, given where it ended. */
  ghost function Named(nodes: seq<Node>, k: nat): Node?
    reads nodes`key
  {
    if k < |nodes| && nodes[k].key != null then nodes[k] else null
  }

  /** A list of children with readable names, all that the search looks at. */
  ghost predicate Searchable(parent: Node)
    reads parent`child, parent`children, parent.children`next, parent.children`key
    reads set n | n in parent.children :: n.key
  {
    Linked(parent.child, parent.children) && forall n | n in parent.children :: n.key != null ==> IsText(n.key)
  }

  lemma ValidIsSearchable(parent: Node)
    requires parent.Valid()
    ensures Searchable(parent)
  {
    hide Node.Valid, IsText, CString;
    ChildrenLinked(parent);
    forall n | n in parent.children ensures n.key != null ==> IsText(n.key) {
      ChildIsBelow(parent, n);
      NameIsText(n);
    }
  }

  /** get_object_item. */
  method ObjectItem(parent: Node?, name: array?<byte>, caseSensitive: bool) returns (found: Node?, ghost k: nat)
    requires parent != null ==> Searchable(parent)
    requires name != null ==> IsText(name)
    ensures parent == null || name == null ==> found == null
    ensures parent != null && name != null ==>
      FirstStop(parent.children, k, TextOf(name), caseSensitive) && found == Named(parent.children, k)
  {
    hide Linked, Fold, IsText, CString, Stops;
    k := 0;
    if parent == null || name == null {
      return null, 0;
    }
    ghost var nodes := parent.children;
    ghost var text := TextOf(name);
    var current := parent.child;
    FirstOf(current, nodes);
    while current != null
      invariant k <= |nodes| && current == (if k < |nodes| then nodes[k] else null)
      invariant forall i :: 0 <= i < k ==> !Stops(nodes[i], text, caseSensitive)
      decreases |nodes| - k
    {
      var stop := Matches(current, name, caseSensitive);
      if stop {
        break;
      }
      NextOf(parent.child, nodes, k);
      current := current.next;
      k := k + 1;
    }
    if current == null || current.key == null {
      return null, k;
    }
    return current, k;
  }

  /** The test of the two loops of get_object_item. */
  method Matches(current: Node, name: array<byte>, caseSensitive: bool) returns (stop: bool)
    requires IsText(name) && (current.key != null ==> IsText(current.key))
    ensures stop == Stops(current, TextOf(name), caseSensitive)
  {
    hide CString, IsText;
    if caseSensitive {
      stop := current.key == null || TextOf(name) == TextOf(current.key);
    } else {
      var order := CaseInsensitiveStrcmp(name, current.key);
      stop := order == 0;
    }
  }

  lemma NameIsText(n: Node)
    requires n.Valid()
    ensures n.key != null ==> IsText(n.key)
  {
    assert n.Ready();
  }

  /** On an object the search is the lookup of values by name. */
  lemma SearchIsFind(parent: Node, k: nat, name: Bytes, caseSensitive: bool)
    requires parent.Valid() && parent.kind == IsObject && FirstStop(parent.children, k, name, caseSensitive)
    ensures parent.tree.Obj?
    ensures var found := Named(parent.children, k);
      Find(parent.tree.members, name, caseSensitive) == if found == null then None else Some(found.tree)
    ensures k < |parent.children| ==> Named(parent.children, k) == parent.children[k]
  {
    ValidTree(parent);
    hide Node.Valid, Fold, CString, Find;
    FindAt(parent.tree.members, k, name, caseSensitive);
  }

  /** The first match decides. */
  lemma {:induction false} FindAt(ms: seq<Member>, k: nat, name: Bytes, caseSensitive: bool)
    requires k <= |ms| && forall i :: 0 <= i < k ==> Fold(ms[i].key, caseSensitive) != Fold(name, caseSensitive)
    requires k < |ms| ==> Fold(ms[k].key, caseSensitive) == Fold(name, caseSensitive)
    ensures Find(ms, name, caseSensitive) == if k < |ms| then Some(ms[k].value) else None
  {
    if k > 0 {
      FindAt(ms[1..], k - 1, name, caseSensitive);
    }
  }
}
