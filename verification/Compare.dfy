/** cJSON_Compare, and the equality it decides. */
module Compare {
  import opened Bytes
  import opened Json

  // ---- the code ----

  function ToLower(c: byte): byte {
    if 65 <= c <= 90 then c + 32 else c
  }

  function Fold(s: Bytes, caseSensitive: bool): (f: Bytes)
    ensures |f| == |s|
  {
    if caseSensitive then s else seq(|s|, i requires 0 <= i < |s| => ToLower(s[i]))
  }

  /** Folding case is that of ASCII: upper-case letters become lower-case ones, all else stays. */
  lemma FoldingIsAscii(c: byte)
    ensures Fold(Lit("ABCDEFGHIJKLMNOPQRSTUVWXYZ"), false) == Lit("abcdefghijklmnopqrstuvwxyz")
    ensures !('A' as int <= c <= 'Z' as int) ==> Fold([c], false) == [c]
    ensures Fold([c], true) == [c]
  {
  }

  /** get_object_item: the value under the first key that matches. */
  function Find(ms: seq<Member>, key: Bytes, caseSensitive: bool): (r: Option<J>)
    ensures r.Some? ==> exists m :: m in ms && m.value == r.value
  {
    if ms == [] then None
    else if Fold(ms[0].key, caseSensitive) == Fold(key, caseSensitive) then
      assert ms[0] in ms;
      Some(ms[0].value)
    else
      var r := Find(ms[1..], key, caseSensitive);
      assert forall m :: m in ms[1..] ==> m in ms;
      r
  }

  const DBL_EPSILON: real := 1.0 / 4503599627370496.0

  function Abs(x: real): real {
    if x < 0.0 then -x else x
  }

  /** compare_double. */
  predicate CompareDouble(a: real, b: real) {
    var largest := if Abs(a) > Abs(b) then Abs(a) else Abs(b);
    Abs(a - b) <= largest * DBL_EPSILON
  }

  function Size(j: J): (n: nat)
    ensures n > 0
    decreases j, 1
  {
    match j
    case Arr(xs) => 1 + ElementsSize(xs)
    case Obj(ms) => 1 + MembersSize(ms)
    case _ => 1
  }

  function ElementsSize(xs: seq<J>): nat
    decreases xs, 0
  {
    if xs == [] then 0 else Size(xs[0]) + ElementsSize(xs[1..])
  }

  function MembersSize(ms: seq<Member>): nat
    decreases ms, 0
  {
    if ms == [] then 0 else Size(ms[0].value) + MembersSize(ms[1..])
  }

  lemma {:induction false} MemberIsSmaller(ms: seq<Member>, m: Member)
    requires m in ms
    ensures Size(m.value) <= MembersSize(ms)
  {
    if m != ms[0] {
      MemberIsSmaller(ms[1..], m);
    }
  }

  /** cJSON_Compare on distinct trees. */
  predicate Compare(a: J, b: J, caseSensitive: bool)
    decreases Size(a) + Size(b), 0
  {
    match (a, b)
    case (Null, Null) => true
    case (False, False) => true
    case (True, True) => true
    case (Num(x), Num(y)) => CompareDouble(x, y)
    case (Str(s), Str(t)) => s == t
    case (Arr(xs), Arr(ys)) => CompareElements(xs, ys, caseSensitive)
    case (Obj(ms), Obj(ns)) => CompareMembers(ms, ns, caseSensitive) && CompareMembers(ns, ms, caseSensitive)
    case _ => false
  }

  predicate CompareElements(xs: seq<J>, ys: seq<J>, caseSensitive: bool)
    decreases ElementsSize(xs) + ElementsSize(ys), 3, |xs|
  {
    if xs == [] || ys == [] then xs == ys
    else Compare(xs[0], ys[0], caseSensitive) && CompareElements(xs[1..], ys[1..], caseSensitive)
  }

  /** One pass over an object: every member has its match in the other. */
  predicate CompareMembers(ms: seq<Member>, ns: seq<Member>, caseSensitive: bool)
    decreases MembersSize(ms) + MembersSize(ns), 3, |ms|
  {
    forall m | m in ms :: CompareMember(m, ms, ns, caseSensitive)
  }

  predicate CompareMember(m: Member, ghost ms: seq<Member>, ns: seq<Member>, caseSensitive: bool)
    requires m in ms
    decreases MembersSize(ms) + MembersSize(ns), 2, 0
  {
    match Find(ns, m.key, caseSensitive)
    case None => false
    case Some(v) =>
      MemberIsSmaller(ms, m);
      FoundIsSmaller(ns, m.key, caseSensitive);
      Compare(m.value, v, caseSensitive)
  }

  lemma FoundIsSmaller(ns: seq<Member>, key: Bytes, caseSensitive: bool)
    requires Find(ns, key, caseSensitive).Some?
    ensures Size(Find(ns, key, caseSensitive).value) <= MembersSize(ns)
  {
    var n :| n in ns && n.value == Find(ns, key, caseSensitive).value;
    MemberIsSmaller(ns, n);
  }

  // ---- what it decides ----

  /** A tree with objects as finite maps: no order among members, one value for each folded key. */
  datatype Canonical =
    | CNull
    | CFalse
    | CTrue
    | CNum(value: real)
    | CStr(text: Bytes)
    | CArr(elements: seq<Canonical>)
    | CObj(members: map<Bytes, Canonical>)

  function Canon(j: J, caseSensitive: bool): Canonical
    decreases j, 1
  {
    match j
    case Null => CNull
    case False => CFalse
    case True => CTrue
    case Num(v) => CNum(v)
    case Str(s) => CStr(s)
    case Arr(xs) => CArr(CanonElements(xs, caseSensitive))
    case Obj(ms) => CObj(CanonMembers(ms, caseSensitive))
  }

  function CanonElements(xs: seq<J>, caseSensitive: bool): (cs: seq<Canonical>)
    ensures |cs| == |xs|
    decreases xs, 0
  {
    if xs == [] then [] else [Canon(xs[0], caseSensitive)] + CanonElements(xs[1..], caseSensitive)
  }

  /** Where a key occurs twice, the first one counts. */
  function CanonMembers(ms: seq<Member>, caseSensitive: bool): map<Bytes, Canonical>
    decreases ms, 0
  {
    if ms == [] then map[]
    else CanonMembers(ms[1..], caseSensitive)[Fold(ms[0].key, caseSensitive) := Canon(ms[0].value, caseSensitive)]
  }

  /** Members with the same folded key have the same value: true when keys are unique. */
  predicate Consistent(j: J, caseSensitive: bool)
    decreases j, 1
  {
    match j
    case Arr(xs) => forall x | x in xs :: Consistent(x, caseSensitive)
    case Obj(ms) =>
      var c := CanonMembers(ms, caseSensitive);
      forall m | m in ms ::
        Consistent(m.value, caseSensitive)
        && Fold(m.key, caseSensitive) in c && c[Fold(m.key, caseSensitive)] == Canon(m.value, caseSensitive)
    case _ => true
  }

  predicate UniqueKeys(j: J, caseSensitive: bool) {
    match j
    case Arr(xs) => forall x | x in xs :: UniqueKeys(x, caseSensitive)
    case Obj(ms) =>
      (forall m | m in ms :: UniqueKeys(m.value, caseSensitive))
      && forall i, k :: 0 <= i < k < |ms| ==> Fold(ms[i].key, caseSensitive) != Fold(ms[k].key, caseSensitive)
    case _ => true
  }

  /** From here on a neighbouring integer is within one epsilon. */
  const EXACT_LIMIT := 0x10_0000_0000_0000

  predicate IsWhole(v: real) {
    v == v.Floor as real && -EXACT_LIMIT < v.Floor < EXACT_LIMIT
  }

  /** Every number is an integer that compare_double tells from all others of its size. */
  predicate WholeValued(j: J) {
    match j
    case Num(v) => IsWhole(v)
    case Arr(xs) => forall x | x in xs :: WholeValued(x)
    case Obj(ms) => forall m | m in ms :: WholeValued(m.value)
    case _ => true
  }

  lemma {:induction j} IntsAreWhole(j: J)
    requires IntValued(j)
    ensures WholeValued(j)
  {
  }

  lemma DoublesOfWholes(a: real, b: real)
    requires IsWhole(a) && IsWhole(b)
    ensures CompareDouble(a, b) <==> a == b
  {
    var m, n := a.Floor, b.Floor;
    assert a - b == (m - n) as real;
    assert m != n ==> Abs(a - b) >= 1.0;
  }

  /** compare_double tells `n` from `m`, if that is no larger. */
  predicate Separates(n: int, m: int) {
    Abs(m as real) <= Abs(n as real) ==> (CompareDouble(n as real, m as real) <==> n == m)
  }

  /** The limit is exact: compare_double tells an integer from all integers that are no larger if and
      only if it is below 2^52. */
  lemma WholesEndAtLimit(n: int)
    ensures (forall m :: Separates(n, m)) <==> -EXACT_LIMIT < n < EXACT_LIMIT
  {
    if -EXACT_LIMIT < n < EXACT_LIMIT {
      forall m ensures Separates(n, m) {
        if Abs(m as real) <= Abs(n as real) {
          DoublesOfWholes(n as real, m as real);
        }
      }
    } else {
      var m := if n > 0 then n - 1 else n + 1;
      assert Abs(n as real - m as real) == 1.0;
      assert !Separates(n, m);
    }
  }

  /** On other doubles compare_double is not transitive: two steps of one epsilon from 1. */
  lemma DoublesAreNotTransitive()
    ensures var e := DBL_EPSILON;
      CompareDouble(1.0, 1.0 + e) && CompareDouble(1.0 + e, 1.0 + 2.0 * e) && !CompareDouble(1.0, 1.0 + 2.0 * e)
  {
  }

  /** First-match lookup is lookup in the map. */
  lemma {:induction false} FindIsLookup(ms: seq<Member>, key: Bytes, caseSensitive: bool)
    ensures var c := CanonMembers(ms, caseSensitive);
      var f := Fold(key, caseSensitive);
      match Find(ms, key, caseSensitive)
      case None => f !in c
      case Some(v) => f in c && c[f] == Canon(v, caseSensitive)
  {
    hide Canon, Fold;
    if ms != [] {
      FindIsLookup(ms[1..], key, caseSensitive);
    }
  }

  lemma {:induction false} KeysAreFolded(ms: seq<Member>, caseSensitive: bool)
    ensures forall m :: m in ms ==> Fold(m.key, caseSensitive) in CanonMembers(ms, caseSensitive)
    ensures forall f :: f in CanonMembers(ms, caseSensitive) ==>
      exists m :: m in ms && Provides(m, f, ms, caseSensitive)
  {
    hide Canon, Fold;
    if ms != [] {
      KeysAreFolded(ms[1..], caseSensitive);
      assert ms == [ms[0]] + ms[1..];
      forall f | f in CanonMembers(ms, caseSensitive)
        ensures exists m :: m in ms && Provides(m, f, ms, caseSensitive)
      {
        if f == Fold(ms[0].key, caseSensitive) {
          assert Provides(ms[0], f, ms, caseSensitive);
        } else {
          assert f in CanonMembers(ms[1..], caseSensitive);
          var m :| m in ms[1..] && Provides(m, f, ms[1..], caseSensitive);
          assert Provides(m, f, ms, caseSensitive);
        }
      }
    }
  }

  /** `m` is where the map of `ms` has its value under `f` from. */
  predicate Provides(m: Member, f: Bytes, ms: seq<Member>, caseSensitive: bool) {
    Fold(m.key, caseSensitive) == f && Agrees(m, ms, caseSensitive)
  }

  /** The map of `ms` has the value of `m` under the key of `m`. */
  predicate Agrees(m: Member, ms: seq<Member>, caseSensitive: bool) {
    var c, f := CanonMembers(ms, caseSensitive), Fold(m.key, caseSensitive);
    f in c && c[f] == Canon(m.value, caseSensitive)
  }

  /** On trees of such integers cJSON_Compare says that the two are equal as maps and each agrees with
      itself about keys that occur more than once. */
  lemma {:induction false} CompareIsCanonicalEquality(a: J, b: J, caseSensitive: bool)
    requires WholeValued(a) && WholeValued(b)
    ensures Compare(a, b, caseSensitive)
      <==> Consistent(a, caseSensitive) && Consistent(b, caseSensitive)
           && Canon(a, caseSensitive) == Canon(b, caseSensitive)
    decreases Size(a) + Size(b), 2
  {
    match (a, b)
    case (Num(x), Num(y)) => DoublesOfWholes(x, y);
    case (Arr(xs), Arr(ys)) => ElementsCompare(xs, ys, caseSensitive);
    case (Obj(ms), Obj(ns)) => ObjectsCompare(ms, ns, caseSensitive);
    case _ =>
  }

  predicate ConsistentElements(xs: seq<J>, caseSensitive: bool) {
    forall x | x in xs :: Consistent(x, caseSensitive)
  }

  lemma {:induction false} ElementsCompare(xs: seq<J>, ys: seq<J>, caseSensitive: bool)
    requires forall x | x in xs :: WholeValued(x)
    requires forall y | y in ys :: WholeValued(y)
    ensures CompareElements(xs, ys, caseSensitive)
      <==> ConsistentElements(xs, caseSensitive) && ConsistentElements(ys, caseSensitive)
           && CanonElements(xs, caseSensitive) == CanonElements(ys, caseSensitive)
    decreases ElementsSize(xs) + ElementsSize(ys), 3, |xs|
  {
    hide Compare, Consistent, Canon, WholeValued;
    if xs != [] && ys != [] {
      var x, y := xs[0], ys[0];
      CompareIsCanonicalEquality(x, y, caseSensitive);
      ElementsCompare(xs[1..], ys[1..], caseSensitive);
      assert xs == [x] + xs[1..] && ys == [y] + ys[1..];
      var cx, cy := CanonElements(xs[1..], caseSensitive), CanonElements(ys[1..], caseSensitive);
      assert [Canon(x, caseSensitive)] + cx == [Canon(y, caseSensitive)] + cy
        <==> Canon(x, caseSensitive) == Canon(y, caseSensitive) && cx == cy
      by {
        assert ([Canon(x, caseSensitive)] + cx)[1..] == cx && ([Canon(y, caseSensitive)] + cy)[1..] == cy;
      }
    }
  }

  predicate ConsistentValues(ms: seq<Member>, caseSensitive: bool) {
    forall m | m in ms :: Consistent(m.value, caseSensitive)
  }

  predicate AllAgree(ms: seq<Member>, ns: seq<Member>, caseSensitive: bool) {
    forall m | m in ms :: Agrees(m, ns, caseSensitive)
  }

  lemma {:induction false} MemberCompares(m: Member, ms: seq<Member>, ns: seq<Member>, caseSensitive: bool)
    requires m in ms && WholeValued(m.value)
    requires forall n | n in ns :: WholeValued(n.value)
    ensures CompareMember(m, ms, ns, caseSensitive)
      ==> Consistent(m.value, caseSensitive) && Agrees(m, ns, caseSensitive)
    ensures ConsistentValues(ns, caseSensitive) && Consistent(m.value, caseSensitive) && Agrees(m, ns, caseSensitive)
      ==> CompareMember(m, ms, ns, caseSensitive)
    decreases MembersSize(ms) + MembersSize(ns), 3
  {
    hide Compare, Consistent, Canon, WholeValued, Fold, CanonMembers, Find;
    FindIsLookup(ns, m.key, caseSensitive);
    match Find(ns, m.key, caseSensitive)
    case None =>
    case Some(v) =>
      MemberIsSmaller(ms, m);
      FoundIsSmaller(ns, m.key, caseSensitive);
      var n :| n in ns && n.value == v;
      CompareIsCanonicalEquality(m.value, v, caseSensitive);
  }

  lemma {:induction false} PassCompares(ms: seq<Member>, ns: seq<Member>, caseSensitive: bool)
    requires forall m | m in ms :: WholeValued(m.value)
    requires forall n | n in ns :: WholeValued(n.value)
    ensures CompareMembers(ms, ns, caseSensitive)
      ==> ConsistentValues(ms, caseSensitive) && AllAgree(ms, ns, caseSensitive)
    ensures ConsistentValues(ms, caseSensitive) && ConsistentValues(ns, caseSensitive)
      && AllAgree(ms, ns, caseSensitive)
      ==> CompareMembers(ms, ns, caseSensitive)
    decreases MembersSize(ms) + MembersSize(ns), 4
  {
    hide CompareMember, Consistent, Agrees, WholeValued;
    forall m | m in ms
      ensures CompareMember(m, ms, ns, caseSensitive) ==>
        Consistent(m.value, caseSensitive) && Agrees(m, ns, caseSensitive)
      ensures ConsistentValues(ns, caseSensitive) && Consistent(m.value, caseSensitive) && Agrees(m, ns, caseSensitive)
        ==> CompareMember(m, ms, ns, caseSensitive)
    {
      MemberCompares(m, ms, ns, caseSensitive);
    }
  }

  /** If each agrees with the other's map, the maps are equal and each agrees with its own. */
  lemma MutualAgreement(ms: seq<Member>, ns: seq<Member>, caseSensitive: bool)
    requires AllAgree(ms, ns, caseSensitive) && AllAgree(ns, ms, caseSensitive)
    ensures CanonMembers(ms, caseSensitive) == CanonMembers(ns, caseSensitive)
    ensures AllAgree(ms, ms, caseSensitive) && AllAgree(ns, ns, caseSensitive)
  {
    hide CanonMembers, Canon, Fold;
    var c, d := CanonMembers(ms, caseSensitive), CanonMembers(ns, caseSensitive);
    KeysAreFolded(ms, caseSensitive);
    KeysAreFolded(ns, caseSensitive);
    forall f | f in c ensures f in d && c[f] == d[f] {
      var m :| m in ms && Provides(m, f, ms, caseSensitive);
      assert Agrees(m, ns, caseSensitive);
    }
    forall f | f in d ensures f in c {
      var n :| n in ns && Provides(n, f, ns, caseSensitive);
      assert Agrees(n, ms, caseSensitive);
    }
    assert c == d;
    forall m | m in ms ensures Agrees(m, ms, caseSensitive) {
      assert Agrees(m, ns, caseSensitive);
    }
    forall n | n in ns ensures Agrees(n, ns, caseSensitive) {
      assert Agrees(n, ms, caseSensitive);
    }
  }

  lemma ObjectIsConsistent(ms: seq<Member>, caseSensitive: bool)
    ensures Consistent(Obj(ms), caseSensitive)
      <==> ConsistentValues(ms, caseSensitive) && AllAgree(ms, ms, caseSensitive)
  {
    hide CanonMembers, Canon, Fold;
  }

  lemma {:induction false} ObjectsCompare(ms: seq<Member>, ns: seq<Member>, caseSensitive: bool)
    requires forall m | m in ms :: WholeValued(m.value)
    requires forall n | n in ns :: WholeValued(n.value)
    ensures CompareMembers(ms, ns, caseSensitive) && CompareMembers(ns, ms, caseSensitive)
      <==> Consistent(Obj(ms), caseSensitive) && Consistent(Obj(ns), caseSensitive)
           && CanonMembers(ms, caseSensitive) == CanonMembers(ns, caseSensitive)
    decreases MembersSize(ms) + MembersSize(ns), 5
  {
    hide CompareMembers, Consistent, CanonMembers, AllAgree, ConsistentValues;
    PassCompares(ms, ns, caseSensitive);
    PassCompares(ns, ms, caseSensitive);
    ObjectIsConsistent(ms, caseSensitive);
    ObjectIsConsistent(ns, caseSensitive);
    if CompareMembers(ms, ns, caseSensitive) && CompareMembers(ns, ms, caseSensitive) {
      MutualAgreement(ms, ns, caseSensitive);
    } else if CanonMembers(ms, caseSensitive) == CanonMembers(ns, caseSensitive) {
      SameMap(ms, ns, caseSensitive);
      SameMap(ns, ms, caseSensitive);
    }
  }

  lemma SameMap(ms: seq<Member>, ns: seq<Member>, caseSensitive: bool)
    requires CanonMembers(ms, caseSensitive) == CanonMembers(ns, caseSensitive)
    ensures AllAgree(ms, ms, caseSensitive) ==> AllAgree(ms, ns, caseSensitive)
  {
    hide CanonMembers, Canon, Fold;
    forall m | m in ms && Agrees(m, ms, caseSensitive) ensures Agrees(m, ns, caseSensitive) {
    }
  }

  // ---- consequences ----

  /** Comparison is symmetric, for all trees and doubles. */
  lemma {:induction false} CompareIsSymmetric(a: J, b: J, caseSensitive: bool)
    ensures Compare(a, b, caseSensitive) <==> Compare(b, a, caseSensitive)
    decreases a, 1
  {
    match (a, b)
    case (Num(x), Num(y)) => assert Abs(x - y) == Abs(y - x);
    case (Arr(xs), Arr(ys)) => ElementsAreSymmetric(xs, ys, caseSensitive);
    case _ =>
  }

  lemma {:induction false} ElementsAreSymmetric(xs: seq<J>, ys: seq<J>, caseSensitive: bool)
    ensures CompareElements(xs, ys, caseSensitive) <==> CompareElements(ys, xs, caseSensitive)
    decreases xs, 0
  {
    if xs != [] && ys != [] {
      CompareIsSymmetric(xs[0], ys[0], caseSensitive);
      ElementsAreSymmetric(xs[1..], ys[1..], caseSensitive);
    }
  }

  lemma CompareIsTransitive(a: J, b: J, c: J, caseSensitive: bool)
    requires WholeValued(a) && WholeValued(b) && WholeValued(c)
    requires Compare(a, b, caseSensitive) && Compare(b, c, caseSensitive)
    ensures Compare(a, c, caseSensitive)
  {
    CompareIsCanonicalEquality(a, b, caseSensitive);
    CompareIsCanonicalEquality(b, c, caseSensitive);
    CompareIsCanonicalEquality(a, c, caseSensitive);
  }

  /** A tree compares equal to a copy of itself exactly when it is consistent. */
  lemma CompareWithCopy(a: J, caseSensitive: bool)
    requires WholeValued(a)
    ensures Compare(a, a, caseSensitive) <==> Consistent(a, caseSensitive)
  {
    CompareIsCanonicalEquality(a, a, caseSensitive);
  }

  /** Unique keys are consistent, at every level. */
  lemma {:induction false} UniqueIsConsistent(j: J, caseSensitive: bool)
    requires UniqueKeys(j, caseSensitive)
    ensures Consistent(j, caseSensitive)
    decreases j
  {
    match j
    case Arr(xs) =>
      forall x | x in xs ensures Consistent(x, caseSensitive) {
        UniqueIsConsistent(x, caseSensitive);
      }
    case Obj(ms) =>
      forall m | m in ms ensures Consistent(m.value, caseSensitive) {
        UniqueIsConsistent(m.value, caseSensitive);
      }
      ObjectIsConsistent(ms, caseSensitive);
      UniqueAgree(ms, caseSensitive);
    case _ =>
  }

  lemma {:induction false} UniqueAgree(ms: seq<Member>, caseSensitive: bool)
    requires forall i, k :: 0 <= i < k < |ms| ==> Fold(ms[i].key, caseSensitive) != Fold(ms[k].key, caseSensitive)
    ensures AllAgree(ms, ms, caseSensitive)
  {
    hide Canon, Fold;
    if ms != [] {
      UniqueAgree(ms[1..], caseSensitive);
      forall m | m in ms ensures Agrees(m, ms, caseSensitive) {
        if m in ms[1..] {
          var k :| 0 <= k < |ms[1..]| && ms[1..][k] == m;
          assert ms[k + 1] == m;
        }
      }
    }
  }

  /** The same members in another order, or repeated, compare equal when each object is consistent, as
      it is when keys are unique. */
  lemma OrderDoesNotMatter(ms: seq<Member>, ns: seq<Member>, caseSensitive: bool)
    requires WholeValued(Obj(ms)) && Consistent(Obj(ms), caseSensitive) && Consistent(Obj(ns), caseSensitive)
    requires forall m :: m in ms <==> m in ns
    ensures Compare(Obj(ms), Obj(ns), caseSensitive)
  {
    hide Compare, Consistent, CanonMembers, Fold, Agrees;
    ObjectIsConsistent(ms, caseSensitive);
    ObjectIsConsistent(ns, caseSensitive);
    MutualAgreement(ms, ns, caseSensitive);
    CompareIsCanonicalEquality(Obj(ms), Obj(ns), caseSensitive);
  }

  /** Duplicate keys with different values: a copy does not compare equal. */
  lemma DuplicateKeysBreakReflexivity(key: Bytes)
    ensures var j := Obj([Member(key, True), Member(key, Null)]);
      !Compare(j, j, true)
  {
    var ms := [Member(key, True), Member(key, Null)];
    var j := Obj(ms);
    FindIsLookup(ms, key, true);
    assert Find(ms, key, true) == Some(True);
    assert ms[1] in ms && !CompareMember(ms[1], ms, ms, true);
  }
}
