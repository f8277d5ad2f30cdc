/** Bytes, C strings and the character codes the engine tests for. */
module Bytes {
  type byte = b: int | 0 <= b < 256
  type Bytes = seq<byte>

  const NUL: byte := 0
  const TAB: byte := 9
  const NEWLINE: byte := 10
  const CR: byte := 13
  const SPACE: byte := 32
  const QUOTE: byte := 34
  const STAR: byte := 42
  const PLUS: byte := 43
  const COMMA: byte := 44
  const MINUS: byte := 45
  const DOT: byte := 46
  const SLASH: byte := 47
  const ZERO: byte := 48
  const NINE: byte := 57
  const COLON: byte := 58
  const LBRACKET: byte := 91
  const BACKSLASH: byte := 92
  const RBRACKET: byte := 93
  const LETTER_U: byte := 117
  const LBRACE: byte := 123
  const RBRACE: byte := 125

  const INT_MAX := 0x7fff_ffff
  const INT_MIN := -0x8000_0000

  datatype Option<+T> = None | Some(value: T)

  /** The ASCII codes of a literal. */
  function Lit(t: string): (b: Bytes)
    requires forall i :: 0 <= i < |t| ==> t[i] as int < 128
    ensures |b| == |t| && forall i :: 0 <= i < |t| ==> b[i] == t[i] as int
  {
    seq(|t|, i requires 0 <= i < |t| => t[i] as int)
  }

  /** The constants above are what their names say. */
  lemma CodesAreAscii()
    ensures Lit("\0\t\n\r ") == [NUL, TAB, NEWLINE, CR, SPACE]
    ensures Lit("\"*+,-./09:") == [QUOTE, STAR, PLUS, COMMA, MINUS, DOT, SLASH, ZERO, NINE, COLON]
    ensures Lit("[\\]u{}") == [LBRACKET, BACKSLASH, RBRACKET, LETTER_U, LBRACE, RBRACE]
  {
  }

  predicate NulFree(s: Bytes) {
    forall i :: 0 <= i < |s| ==> s[i] != NUL
  }

  /** What a C string function sees of a buffer: the bytes before the first NUL. */
  function CString(s: Bytes): (r: Bytes)
    ensures NulFree(r) && |r| <= |s| && r == s[..|r|]
    ensures |r| < |s| ==> s[|r|] == NUL
  {
    if s == [] || s[0] == NUL then [] else
    var rest := CString(s[1..]);
    assert forall i :: 0 <= i < |rest| ==> ([s[0]] + rest)[i + 1] == rest[i];
    [s[0]] + rest
  }

  /** The C string is fixed by where its first NUL is. */
  lemma {:induction false} CStringAt(s: Bytes, n: nat)
    requires n <= |s| && NulFree(s[..n])
    requires n < |s| ==> s[n] == NUL
    ensures CString(s) == s[..n]
  {
    var r := CString(s);
    assert r == s[..|r|];
  }

  /** The bytes of the C string, and its terminator, in the buffer. */
  lemma CStringBytes(s: Bytes)
    requires exists k :: 0 <= k < |s| && s[k] == NUL
    ensures var c := CString(s);
      |c| < |s| && s[|c|] == NUL && forall k :: 0 <= k < |c| ==> s[k] == c[k] != NUL
  {
    var c := CString(s);
    forall k | 0 <= k < |c| ensures s[k] == c[k] != NUL {
      assert s[..|c|][k] == s[k];
    }
  }

  /** A copy of the literal `word` starts at `i`. */
  predicate At(s: Bytes, i: nat, word: Bytes) {
    i + |word| <= |s| && s[i..i + |word|] == word
  }

  /** The first part of a word found at `i` is at `i`, and the second after it. */
  lemma AtSplit(s: Bytes, i: nat, a: Bytes, b: Bytes)
    ensures At(s, i, a + b) <==> At(s, i, a) && At(s, i + |a|, b)
  {
    if At(s, i, a + b) {
      assert s[i..i + |a|] == s[i..i + |a + b|][..|a|];
      assert s[i + |a|..i + |a + b|] == s[i..i + |a + b|][|a|..];
    }
  }

  lemma Assoc(a: Bytes, b: Bytes, c: Bytes)
    ensures a + b + c == a + (b + c)
  {
  }

  function Min(a: int, b: int): int {
    if a < b then a else b
  }
}
