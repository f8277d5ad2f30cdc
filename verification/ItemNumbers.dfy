/** The item numbers that std::stoi reads from names, and what each entry of a client does to the stock. */
module ItemNumbers {
  import opened Bytes
  import opened Json
  import opened Numbers
  import opened Syntax
  import opened Stock

  // ---- std::stoi ----

  /** A blank of the C locale. */
  predicate IsSpace(c: byte) {
    c == ' ' as int || c == '\t' as int || c == '\n' as int || c == '\r' as int || c == 11 || c == 12
  }

  predicate AreBlanks(t: Bytes) {
    forall i :: 0 <= i < |t| ==> IsSpace(t[i])
  }

  /** A sign, or none. */
  predicate IsSign(t: Bytes) {
    t == [] || t == Lit("+") || t == Lit("-")
  }

  predicate BeginsWithDigit(t: Bytes) {
    t != [] && '0' as int <= t[0] <= '9' as int
  }

  /** Blanks, a sign and digits, and then no more digits: the signed decimal number, if it is an int. */
  lemma StoiReads(blanks: Bytes, sign: Bytes, digits: Bytes, rest: Bytes)
    requires AreBlanks(blanks) && IsSign(sign) && AreDigits(digits) && !BeginsWithDigit(rest)
    ensures var n: int := NatValue(digits);
      var v := if sign == Lit("-") then -n else n;
      Stoi(blanks + sign + digits + rest) == if -2147483648 <= v <= 2147483647 then Some(v) else None
  {
    hide At, Blanks, DigitsEnd, DigitsValue, AllDigits, IsSpace, Lit, SignEnd, NatValue, Stoi;
    var s, i := blanks + sign + digits + rest, |blanks|;
    Apart(blanks, sign, digits, rest);
    AtByteIs(s, i + |sign|, digits);
    AtByteIs(s, i + |sign| + |digits|, rest);
    SignPassed(s, i, sign, digits);
    BlanksPassed(s, blanks);
    DigitsRead(s, i + |sign|, digits);
    StoiAt(s, i, i + |sign|, i + |sign| + |digits|);
  }

  lemma StoiAt(s: Bytes, sign: nat, start: nat, end: nat)
    requires Blanks(s, 0) == sign < |s| && SignEnd(s, sign) == start && DigitsEnd(s, start) == end > start
    ensures var n: int := DigitsValue(s, start, end);
      var v := if s[sign] == MINUS then -n else n;
      Stoi(s) == if INT_MIN <= v <= INT_MAX then Some(v) else None
  {
    hide Blanks, SignEnd, DigitsEnd, DigitsValue;
  }

  lemma SignPassed(s: Bytes, i: nat, sign: Bytes, digits: Bytes)
    requires IsSign(sign) && At(s, i, sign) && At(s, i + |sign|, digits) && AreDigits(digits)
    ensures i < |s| && SignEnd(s, i) == i + |sign| && !IsSpace(s[i]) && (s[i] == MINUS <==> sign == Lit("-"))
  {
    AtByteIs(s, i, sign);
    AtByteIs(s, i + |sign|, digits);
    assert Lit("-") == [MINUS] && Lit("+") == [PLUS];
    assert IsDigit(digits[0]);
  }

  /** Without a digit there it throws. */
  lemma StoiRefuses(blanks: Bytes, sign: Bytes, rest: Bytes)
    requires AreBlanks(blanks) && IsSign(sign) && !BeginsWithDigit(rest)
    requires sign == [] && rest != [] ==> !IsSpace(rest[0]) && !IsSign([rest[0]])
    ensures Stoi(blanks + sign + rest) == None
  {
    hide At, Blanks, DigitsValue;
    var s, i := blanks + sign + rest, |blanks|;
    Apart(blanks, sign, [], rest);
    assert blanks + sign + [] + rest == s;
    AtByteIs(s, i, sign);
    AtByteIs(s, i + |sign|, rest);
    BlanksPassed(s, blanks);
  }

  lemma Apart(a: Bytes, b: Bytes, c: Bytes, d: Bytes)
    ensures var s := a + b + c + d;
      At(s, 0, a) && At(s, |a|, b) && At(s, |a| + |b|, c) && At(s, |a| + |b| + |c|, d)
  {
    hide At;
    var s := a + b + c + d;
    WholeIsAt(s);
    AtSplit(s, 0, a + b + c, d);
    AtSplit(s, 0, a + b, c);
    AtSplit(s, 0, a, b);
  }

  lemma BlanksPassed(s: Bytes, blanks: Bytes)
    requires At(s, 0, blanks) && AreBlanks(blanks) && (|blanks| < |s| ==> !IsSpace(s[|blanks|]))
    ensures Blanks(s, 0) == |blanks|
  {
    AtBytes(s, 0, blanks);
    assert forall k :: 0 <= k < |blanks| ==> s[0 + k] == blanks[k];
    BlanksEnd(s, 0, |blanks|);
  }

  lemma {:induction false} BlanksEnd(s: Bytes, i: nat, e: nat)
    requires i <= e <= |s| && (forall k :: i <= k < e ==> IsSpace(s[k])) && (e < |s| ==> !IsSpace(s[e]))
    ensures Blanks(s, i) == e
    decreases e - i
  {
    if i < e {
      BlanksEnd(s, i + 1, e);
    }
  }

  /** The name that increaseStock gives an entry is read as its number. */
  lemma StoiOfInt(n: int)
    ensures Stoi(IntText(n)) == if INT_MIN <= n <= INT_MAX then Some(n) else None
  {
    hide IntText, NatText, DigitsValue, Stoi;
    var digits, sign := NatText(if n < 0 then -n else n), if n < 0 then Lit("-") else [];
    MinusIsSign();
    IntTextApart(n);
    NatTextIsRead(if n < 0 then -n else n);
    StoiReads([], sign, digits, []);
    assert [] + sign + digits + [] == sign + digits;
  }

  lemma MinusIsSign()
    ensures IsSign(Lit("-")) && IsSign([]) && Lit("-") == [MINUS] && AreBlanks([])
  {
  }

  lemma IntTextApart(n: int)
    ensures IntText(n) == (if n < 0 then [MINUS] else []) + NatText(if n < 0 then -n else n)
  {
    hide NatText;
  }

  lemma NatTextIsRead(n: nat)
    ensures AreDigits(NatText(n)) && DigitsValue(NatText(n), 0, |NatText(n)|) == n
  {
    hide NatText;
    var t := NatText(n);
    assert t[0..|t|] == t;
    DigitsValueOfNat(t, 0, n);
  }

  // ---- what one entry of an inventory does to the stock ----

  lemma FirstOfAmounts(m: Member, ms: seq<Member>)
    ensures Throws([m] + ms) == (Unreadable(m) || Throws(ms))
    ensures !Unreadable(m) ==>
      Amounts([m] + ms)
        == (if m.value.Num? then [(Stoi(m.key).value, ValueInt(m.value.valuedouble))] else []) + Amounts(ms)
  {
    hide Stoi, ValueInt;
    assert ([m] + ms)[1..] == ms;
  }

  /** Entries are read one after another. */
  lemma {:induction false} AmountsTogether(a: seq<Member>, b: seq<Member>)
    requires !Throws(a)
    ensures Amounts(a + b) == Amounts(a) + Amounts(b) && Throws(a + b) == Throws(b)
  {
    hide Stoi, ValueInt, Amounts, Unreadable;
    if a == [] {
      NothingRead();
      assert a + b == b && [] + Amounts(b) == Amounts(b);
    } else {
      assert a == [a[0]] + a[1..] && a + b == [a[0]] + (a[1..] + b);
      FirstOfAmounts(a[0], a[1..]);
      FirstOfAmounts(a[0], a[1..] + b);
      AmountsTogether(a[1..], b);
    }
  }

  lemma NothingRead()
    ensures Amounts([]) == []
  {
  }

  /** The positive quantities for an item, one entry at a time. */
  lemma {:induction false} PositiveTogether(a: seq<(int, int)>, b: seq<(int, int)>, item: int)
    ensures Positive(a + b, item) == Positive(a, item) + Positive(b, item)
  {
    if a == [] {
      assert a + b == b;
    } else {
      PositiveTogether(a[1..], b, item);
      assert (a + b)[1..] == a[1..] + b;
    }
  }

  /** What is left of the name and value of an entry: the quantity of item `n`, if it is a positive number. */
  function Quantity(m: Member, n: int, item: int): nat {
    if m.value.Num? && item == n && ValueInt(m.value.valuedouble) > 0 then ValueInt(m.value.valuedouble) else 0
  }

  /** An entry that is no number, or is named by the decimal number of item `n`. */
  predicate IsEntry(m: Member, n: int) {
    m.value.Num? ==> m.key == IntText(n) && INT_MIN <= n <= INT_MAX
  }

  lemma EntryIsRead(m: Member, n: int, item: int)
    requires IsEntry(m, n)
    ensures !Throws([m]) && Positive(Amounts([m]), item) == Quantity(m, n, item)
  {
    hide Stoi, IntText, ValueInt;
    StoiOfInt(n);
    if m.value.Num? {
      var x := (n, ValueInt(m.value.valuedouble));
      assert Amounts([m]) == [x] + Amounts([]);
      assert Positive([x], item) == (if x.0 == item && x.1 > 0 then x.1 else 0) + Positive([], item);
    } else {
      assert Amounts([m]) == [] + Amounts([]);
    }
  }

  /** An inventory with an entry amid others holds so much more. */
  lemma EntryIsHeld(a: seq<Member>, m: Member, n: int, b: seq<Member>, item: int)
    requires IsEntry(m, n) && !Throws(a) && !Throws(b)
    ensures !Throws(a + [m] + b) && !Throws(a + b)
    ensures Positive(Amounts(a + [m] + b), item) == Positive(Amounts(a + b), item) + Quantity(m, n, item)
  {
    hide Throws, Amounts, Positive, IsEntry, Quantity;
    EntryIsRead(m, n, item);
    AmountsTogether(a, [m]);
    AmountsTogether(a + [m], b);
    AmountsTogether(a, b);
    PositiveTogether(Amounts(a) + Amounts([m]), Amounts(b), item);
    PositiveTogether(Amounts(a), Amounts([m]), item);
    PositiveTogether(Amounts(a), Amounts(b), item);
  }

  /** The level of an item after a new client has been added with these entries. */
  function LevelWith(s: Store, id: int, ms: seq<Member>, item: int): int {
    Level(Step(s, AddClient(id, Some(Obj(ms)), true, [])).stock, item)
  }

  /** The level after a client with these entries has been removed. */
  function LevelWithout(s: Store, id: int, ms: seq<Member>, item: int): int {
    var holding := Store(s.stock, s.clients[id := Some(Obj(ms))]);
    Level(Step(holding, RemoveClient(id)).stock, item)
  }

  lemma LevelRaised(s: Store, id: int, ms: seq<Member>, item: int)
    requires id !in s.clients
    ensures LevelWith(s, id, ms, item) == Level(s.stock, item) + Positive(Amounts(ms), item)
  {
    hide Amounts, Positive, ApplyAll, Incs, Level, Lost, Kept;
    IncsAdd(s.stock, Amounts(ms), [], item);
    NoneIsLost(s.stock, Amounts(ms), item);
  }

  lemma LevelLowered(s: Store, id: int, ms: seq<Member>, item: int)
    requires Covers(s.stock, Amounts(ms))
    ensures LevelWithout(s, id, ms, item) == Level(s.stock, item) - Positive(Amounts(ms), item)
  {
    hide Amounts, Positive, ApplyAll, Decs, Level, NoneRefused, Covers, Throws;
    CoveredDecs(s.stock, Amounts(ms));
    DecsTake(s.stock, Amounts(ms), item);
  }

  /** An entry of a client, amid any others that can be read, moves the level of the item that its name is the
      decimal number of by its quantity, if that is positive, and no other level: up when the client is added,
      and down when it is removed and there is stock for all it holds. An entry that is no number moves none. */
  lemma EntryMovesItsItem(s: Store, id: int, a: seq<Member>, m: Member, n: int, b: seq<Member>, item: int)
    requires IsEntry(m, n) && !Throws(a) && !Throws(b)
    ensures id !in s.clients ==>
      LevelWith(s, id, a + [m] + b, item) == LevelWith(s, id, a + b, item) + Quantity(m, n, item)
      && LevelWith(s, id, [], item) == Level(s.stock, item)
    ensures Covers(s.stock, Amounts(a + [m] + b)) ==>
      LevelWithout(s, id, a + [m] + b, item) == LevelWithout(s, id, a + b, item) - Quantity(m, n, item)
      && LevelWithout(s, id, [], item) == Level(s.stock, item)
  {
    hide LevelWith, LevelWithout, Covers, Level, Amounts, Positive, Quantity, Throws, IsEntry;
    EntryIsHeld(a, m, n, b, item);
    NothingHeld(s.stock, item);
    if id !in s.clients {
      LevelRaised(s, id, a + [m] + b, item);
      LevelRaised(s, id, a + b, item);
      LevelRaised(s, id, [], item);
    }
    if Covers(s.stock, Amounts(a + [m] + b)) {
      LessIsCovered(s.stock, a, m, n, b);
      LevelLowered(s, id, a + [m] + b, item);
      LevelLowered(s, id, a + b, item);
      NothingIsCovered(s.stock, Amounts(a + b));
      LevelLowered(s, id, [], item);
    }
  }

  lemma NothingHeld(stock: map<int, int>, item: int)
    ensures Positive(Amounts([]), item) == 0
  {
  }

  lemma NothingIsCovered(stock: map<int, int>, amounts: seq<(int, int)>)
    requires Covers(stock, amounts)
    ensures Covers(stock, Amounts([]))
  {
    hide Level;
    forall item ensures Level(stock, item) >= Positive(Amounts([]), item) {
      assert Level(stock, item) >= Positive(amounts, item);
    }
  }

  lemma LessIsCovered(stock: map<int, int>, a: seq<Member>, m: Member, n: int, b: seq<Member>)
    requires IsEntry(m, n) && !Throws(a) && !Throws(b) && Covers(stock, Amounts(a + [m] + b))
    ensures Covers(stock, Amounts(a + b))
  {
    hide Level, Positive, Amounts, Throws, IsEntry, Quantity;
    forall item ensures Level(stock, item) >= Positive(Amounts(a + b), item) {
      EntryIsHeld(a, m, n, b, item);
      assert Level(stock, item) >= Positive(Amounts(a + [m] + b), item);
    }
  }
}
