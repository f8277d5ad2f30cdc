/** JSON trees as values: what a tree of cJSON nodes denotes. */
module Json {
  import opened Bytes

  datatype J =
    | Null
    | False
    | True
    | Num(valuedouble: real)
    | Str(text: Bytes)
    | Arr(elements: seq<J>)
    | Obj(members: seq<Member>)

  datatype Member = Member(key: Bytes, value: J)

  const NESTING_LIMIT: nat := 1000
  const CIRCULAR_LIMIT: nat := 10000

  /** The integer a number node carries beside its double: saturated, else truncated towards zero. */
  function ValueInt(v: real): (n: int)
    ensures INT_MIN <= n <= INT_MAX
  {
    if v >= INT_MAX as real then INT_MAX
    else if v <= INT_MIN as real then INT_MIN
    else if v >= 0.0 then v.Floor
    else -((-v).Floor)
  }

  predicate IsInt32(v: real) {
    v == ValueInt(v) as real
  }

  /** Every number is an int32 and no string or key holds a NUL. */
  predicate Printable(j: J) {
    match j
    case Num(v) => IsInt32(v)
    case Str(s) => NulFree(s)
    case Arr(xs) => forall x | x in xs :: Printable(x)
    case Obj(ms) => forall m | m in ms :: NulFree(m.key) && Printable(m.value)
    case _ => true
  }

  predicate IntValued(j: J) {
    match j
    case Num(v) => IsInt32(v)
    case Arr(xs) => forall x | x in xs :: IntValued(x)
    case Obj(ms) => forall m | m in ms :: IntValued(m.value)
    case _ => true
  }

  predicate CleanStrings(j: J) {
    match j
    case Str(s) => NulFree(s)
    case Arr(xs) => forall x | x in xs :: CleanStrings(x)
    case Obj(ms) => forall m | m in ms :: NulFree(m.key) && CleanStrings(m.value)
    case _ => true
  }

  /** No number of containers on a path from the root exceeds `n`. */
  predicate NestingAtMost(j: J, n: int) {
    match j
    case Arr(xs) => n >= 1 && forall x | x in xs :: NestingAtMost(x, n - 1)
    case Obj(ms) => n >= 1 && forall m | m in ms :: NestingAtMost(m.value, n - 1)
    case _ => true
  }

  lemma {:induction j} IntValuedAndCleanIsPrintable(j: J)
    ensures Printable(j) <==> IntValued(j) && CleanStrings(j)
  {
  }
}
