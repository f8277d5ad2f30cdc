/** cJSON_Minify: the filter it computes, and the in-place loop that computes it. */
module Minify {
  import opened Bytes

  predicate IsBlank(c: byte) {
    c == SPACE || c == TAB || c == CR || c == NEWLINE
  }

  // ---- specification ----

  /** What is left after a `//` comment. */
  function AfterLine(s: Bytes): (r: Bytes)
    ensures |r| <= |s|
  {
    if s == [] then [] else if s[0] == NEWLINE then s[1..] else AfterLine(s[1..])
  }

  /** What is left after a block comment; an unterminated one takes everything. */
  function AfterBlock(s: Bytes): (r: Bytes)
    ensures |r| <= |s|
  {
    if s == [] then []
    else if s[0] == STAR && |s| > 1 && s[1] == SLASH then s[2..]
    else AfterBlock(s[1..])
  }

  /** How many bytes after an opening quote belong to the string: up to a quote that no backslash
      precedes, or everything. */
  function StringEnd(s: Bytes): (n: nat)
    ensures n <= |s|
  {
    if s == [] then 0
    else if s[0] == QUOTE then 1
    else if s[0] == BACKSLASH && |s| > 1 && s[1] == QUOTE then 2 + StringEnd(s[2..])
    else 1 + StringEnd(s[1..])
  }

  /** Strings are copied verbatim; blanks, comments and lone slashes elsewhere are dropped. */
  function Minified(s: Bytes): (m: Bytes)
    ensures |m| <= |s|
    decreases |s|
  {
    if s == [] then []
    else if IsBlank(s[0]) then Minified(s[1..])
    else if s[0] == SLASH then
      if |s| > 1 && s[1] == SLASH then Minified(AfterLine(s[2..]))
      else if |s| > 1 && s[1] == STAR then Minified(AfterBlock(s[2..]))
      else Minified(s[1..])
    else if s[0] == QUOTE then
      var n := 1 + StringEnd(s[1..]);
      s[..n] + Minified(s[n..])
    else [s[0]] + Minified(s[1..])
  }

  // ---- idempotence ----

  lemma StringEndPlain(c: byte, u: Bytes)
    requires c != QUOTE && (c == BACKSLASH ==> u == [] || u[0] != QUOTE)
    ensures StringEnd([c] + u) == 1 + StringEnd(u)
  {
    assert ([c] + u)[1..] == u;
    assert u != [] ==> ([c] + u)[1] == u[0];
  }

  lemma StringEndEscape(u: Bytes)
    ensures StringEnd([BACKSLASH, QUOTE] + u) == 2 + StringEnd(u)
  {
    assert ([BACKSLASH, QUOTE] + u)[2..] == u;
  }

  lemma StringEndQuote(u: Bytes)
    ensures StringEnd([QUOTE] + u) == 1
  {
  }

  /** A string that was closed stays as it is whatever follows it. */
  lemma {:induction false} ClosedStringEnd(s: Bytes, r: Bytes)
    requires StringEnd(s) < |s| || r == []
    ensures StringEnd(s[..StringEnd(s)] + r) == StringEnd(s)
    decreases |s|
  {
    if s == [] {
      assert s[..0] + r == [];
    } else if s[0] == QUOTE {
      StringEndQuote(r);
      assert s[..1] + r == [QUOTE] + r;
    } else if s[0] == BACKSLASH && |s| > 1 && s[1] == QUOTE {
      ClosedStringEnd(s[2..], r);
      HeadApart(s, 2, StringEnd(s[2..]), r);
      StringEndEscape(s[2..][..StringEnd(s[2..])] + r);
      assert s[..2] == [BACKSLASH, QUOTE];
    } else {
      ClosedStringEnd(s[1..], r);
      HeadApart(s, 1, StringEnd(s[1..]), r);
      StringEndPositive(s[1..]);
      StringEndPlain(s[0], s[1..][..StringEnd(s[1..])] + r);
      assert s[..1] == [s[0]];
    }
  }

  lemma HeadApart(s: Bytes, k: nat, m: nat, r: Bytes)
    requires k + m <= |s|
    ensures s[..k + m] + r == s[..k] + (s[k..][..m] + r)
  {
  }

  lemma StringEndPositive(s: Bytes)
    ensures StringEnd(s) == 0 <==> s == []
  {
  }

  /** Minifying again changes nothing, for every text: terminated or not, commented or not. */
  lemma {:induction false} MinifiedIsStable(s: Bytes)
    ensures Minified(Minified(s)) == Minified(s)
    decreases |s|
  {
    if s == [] {
    } else if IsBlank(s[0]) {
      MinifiedIsStable(s[1..]);
    } else if s[0] == SLASH {
      if |s| > 1 && s[1] == SLASH { MinifiedIsStable(AfterLine(s[2..])); }
      else if |s| > 1 && s[1] == STAR { MinifiedIsStable(AfterBlock(s[2..])); }
      else { MinifiedIsStable(s[1..]); }
    } else if s[0] == QUOTE {
      var n := 1 + StringEnd(s[1..]);
      var rest := Minified(s[n..]);
      MinifiedIsStable(s[n..]);
      var m := s[..n] + rest;
      assert m[1..] == s[1..][..n - 1] + rest;
      ClosedStringEnd(s[1..], rest);
      assert m[..n] == s[..n] && m[n..] == rest;
    } else {
      MinifiedIsStable(s[1..]);
      assert ([s[0]] + Minified(s[1..]))[1..] == Minified(s[1..]);
    }
  }

  // ---- the same filter by position ----

  function LineEnd(s: Bytes, i: nat): (e: nat)
    requires i <= |s|
    ensures i <= e <= |s|
    decreases |s| - i
  {
    if i == |s| then i else if s[i] == NEWLINE then i + 1 else LineEnd(s, i + 1)
  }

  function BlockEnd(s: Bytes, i: nat): (e: nat)
    requires i <= |s|
    ensures i <= e <= |s|
    decreases |s| - i
  {
    if i == |s| then i
    else if s[i] == STAR && i + 1 < |s| && s[i + 1] == SLASH then i + 2
    else BlockEnd(s, i + 1)
  }

  function CloseAt(s: Bytes, i: nat): (e: nat)
    requires i <= |s|
    ensures i <= e <= |s|
    decreases |s| - i
  {
    if i == |s| then i
    else if s[i] == QUOTE then i + 1
    else if s[i] == BACKSLASH && i + 1 < |s| && s[i + 1] == QUOTE then CloseAt(s, i + 2)
    else CloseAt(s, i + 1)
  }

  /** One turn of the main loop at `i`: where it reads on from, and whether it copied what it passed. */
  function Turn(s: Bytes, i: nat): (r: (nat, bool))
    requires i < |s|
    ensures i < r.0 <= |s|
  {
    if IsBlank(s[i]) then (i + 1, false)
    else if s[i] == SLASH then
      if i + 1 < |s| && s[i + 1] == SLASH then (LineEnd(s, i + 2), false)
      else if i + 1 < |s| && s[i + 1] == STAR then (BlockEnd(s, i + 2), false)
      else (i + 1, false)
    else if s[i] == QUOTE then (CloseAt(s, i + 1), true)
    else (i + 1, true)
  }

  /** What one turn adds to the output. */
  function Passed(s: Bytes, i: nat): Bytes
    requires i < |s|
  {
    if Turn(s, i).1 then s[i..Turn(s, i).0] else []
  }

  lemma {:induction false} SuffixEnds(s: Bytes, i: nat)
    requires i <= |s|
    ensures AfterLine(s[i..]) == s[LineEnd(s, i)..]
    ensures AfterBlock(s[i..]) == s[BlockEnd(s, i)..]
    ensures StringEnd(s[i..]) == CloseAt(s, i) - i
    decreases |s| - i
  {
    if i < |s| {
      assert s[i..][1..] == s[i + 1..];
      SuffixEnds(s, i + 1);
      if i + 1 < |s| {
        assert s[i..][2..] == s[i + 2..];
        SuffixEnds(s, i + 2);
      }
    }
  }

  /** The filter goes turn by turn. */
  lemma MinifiedTurn(s: Bytes, i: nat)
    requires i < |s|
    ensures Minified(s[i..]) == Passed(s, i) + Minified(s[Turn(s, i).0..])
  {
    if s[i] == QUOTE {
      QuoteTurn(s, i);
    } else if s[i] == SLASH {
      SlashTurn(s, i);
    } else {
      PlainTurn(s, i);
    }
  }

  lemma PlainTurn(s: Bytes, i: nat)
    requires i < |s| && s[i] != QUOTE && s[i] != SLASH
    ensures Minified(s[i..]) == Passed(s, i) + Minified(s[Turn(s, i).0..])
  {
    hide StringEnd, AfterLine, AfterBlock, LineEnd, BlockEnd, CloseAt;
    assert s[i..][1..] == s[i + 1..] && s[i..i + 1] == [s[i]];
    assert [] + Minified(s[i + 1..]) == Minified(s[i + 1..]);
  }

  lemma QuoteTurn(s: Bytes, i: nat)
    requires i < |s| && s[i] == QUOTE
    ensures Minified(s[i..]) == Passed(s, i) + Minified(s[Turn(s, i).0..])
  {
    hide StringEnd, AfterLine, AfterBlock, LineEnd, BlockEnd, CloseAt;
    assert s[i..][1..] == s[i + 1..];
    SuffixEnds(s, i + 1);
    Slices(s, i, Turn(s, i).0);
  }

  lemma SlashTurn(s: Bytes, i: nat)
    requires i < |s| && s[i] == SLASH
    ensures Minified(s[i..]) == Passed(s, i) + Minified(s[Turn(s, i).0..])
  {
    hide StringEnd, AfterLine, AfterBlock, LineEnd, BlockEnd, CloseAt;
    assert s[i..][1..] == s[i + 1..];
    if i + 1 < |s| {
      assert s[i..][2..] == s[i + 2..];
      SuffixEnds(s, i + 2);
    }
    var rest := Minified(s[Turn(s, i).0..]);
    assert [] + rest == rest;
  }

  lemma Slices(s: Bytes, i: nat, j: nat)
    requires i <= j <= |s|
    ensures s[i..][..j - i] == s[i..j] && s[i..][j - i..] == s[j..]
  {
  }

  // ---- the code ----

  /** The C string in `a` is `text`. */
  ghost predicate Holds(a: Bytes, text: Bytes, from: nat) {
    from <= |text| < |a| && a[|text|] == NUL
    && forall k :: from <= k < |text| ==> a[k] == text[k] != NUL
  }

  /** skip_oneline_comment, from the slashes at `i`. */
  method SkipOneline(json: array<byte>, i: nat, ghost text: Bytes) returns (j: nat)
    requires i + 2 <= |text| && Holds(json[..], text, i)
    ensures j == LineEnd(text, i + 2)
  {
    j := i + 2;
    while json[j] != NUL
      invariant i + 2 <= j <= |text|
      invariant LineEnd(text, j) == LineEnd(text, i + 2)
      decreases |text| - j
    {
      if json[j] == NEWLINE {
        return j + 1;
      }
      j := j + 1;
    }
  }

  /** skip_multiline_comment. */
  method SkipMultiline(json: array<byte>, i: nat, ghost text: Bytes) returns (j: nat)
    requires i + 2 <= |text| && Holds(json[..], text, i)
    ensures j == BlockEnd(text, i + 2)
  {
    j := i + 2;
    while json[j] != NUL
      invariant i + 2 <= j <= |text|
      invariant BlockEnd(text, j) == BlockEnd(text, i + 2)
      decreases |text| - j
    {
      if json[j] == STAR && json[j + 1] == SLASH {
        return j + 2;
      }
      j := j + 1;
    }
  }

  /** The state of both loops: what is still to be read at `i` is untouched, and `done` has been
      written before `o`. */
  ghost predicate State(a: Bytes, text: Bytes, i: nat, o: nat, done: Bytes) {
    o <= i && Holds(a, text, i) && o == |done| && a[..o] == done
  }

  lemma StateBegins(a: Bytes)
    requires exists k :: 0 <= k < |a| && a[k] == NUL
    ensures State(a, CString(a), 0, 0, [])
  {
    CStringBytes(a);
  }

  /** From the terminator on nothing is written. */
  twostate predicate SameFrom(json: array<byte>, n: nat)
    reads json
  {
    forall k :: n <= k < json.Length ==> json[k] == old(json[k])
  }

  /** One `output[0] = input[0]` and both cursors on. */
  method CopyByte(json: array<byte>, i: nat, o: nat, ghost text: Bytes, ghost done: Bytes)
    requires State(json[..], text, i, o, done) && i < |text|
    modifies json
    ensures State(json[..], text, i + 1, o + 1, done + [text[i]]) && SameFrom(json, |text|)
  {
    json[o] := json[i];
    assert json[..o + 1] == old(json[..o]) + [json[o]];
  }

  /** `done` and then the text from `i` up to `j`. */
  ghost function Upto(done: Bytes, text: Bytes, i: nat, j: nat): Bytes
    requires i <= j <= |text|
  {
    done + text[i..j]
  }

  lemma UptoNext(done: Bytes, text: Bytes, i: nat, j: nat)
    requires i <= j < |text|
    ensures Upto(done, text, i, j) + [text[j]] == Upto(done, text, i, j + 1)
    ensures Upto(done, text, i, i) == done
  {
  }

  /** minify_string: moves the string at read position `i` down to write position `o`. */
  method MinifyString(json: array<byte>, i: nat, o: nat, ghost text: Bytes, ghost done: Bytes)
    returns (input: nat, output: nat)
    requires State(json[..], text, i, o, done) && i < |text|
    modifies json
    ensures input == CloseAt(text, i + 1)
    ensures State(json[..], text, input, output, Upto(done, text, i, input)) && SameFrom(json, |text|)
  {
    hide State, Upto;
    UptoNext(done, text, i, i);
    CopyByte(json, i, o, text, done);
    input, output := i + 1, o + 1;
    var closed := false;
    while !closed
      invariant i < input <= |text| && SameFrom(json, |text|)
      invariant State(json[..], text, input, output, Upto(done, text, i, input))
      invariant CloseAt(text, i + 1) == if closed then input else CloseAt(text, input)
      decreases |text| - input, !closed
    {
      var c := ByteAt(json, input, output, text, Upto(done, text, i, input));
      if c == NUL {
        break;
      }
      UptoNext(done, text, i, input);
      CopyByte(json, input, output, text, Upto(done, text, i, input));
      input, output := input + 1, output + 1;
      if c == QUOTE {
        closed := true;
      } else if c == BACKSLASH {
        var d := ByteAt(json, input, output, text, Upto(done, text, i, input));
        if d == QUOTE {
          UptoNext(done, text, i, input);
          CopyByte(json, input, output, text, Upto(done, text, i, input));
          input, output := input + 1, output + 1;
        }
      }
    }
  }

  /** Reading at the cursor: a byte of the text, or its terminator. */
  method ByteAt(json: array<byte>, i: nat, o: nat, ghost text: Bytes, ghost done: Bytes) returns (c: byte)
    requires State(json[..], text, i, o, done)
    ensures i < |text| ==> c == text[i] != NUL
    ensures i == |text| ==> c == NUL
    ensures i < json.Length && json[i] == c
  {
    c := json[i];
  }

  /** The switch of the main loop on the byte `c` at the read position. */
  method MinifyTurn(json: array<byte>, c: byte, i: nat, o: nat, ghost text: Bytes, ghost done: Bytes)
    returns (input: nat, output: nat)
    requires State(json[..], text, i, o, done) && i < |text| && c == text[i]
    modifies json
    ensures input == Turn(text, i).0
    ensures State(json[..], text, input, output, done + Passed(text, i)) && SameFrom(json, |text|)
  {
    input, output := i + 1, o;
    if c == SPACE || c == TAB || c == CR || c == NEWLINE {
    } else if c == SLASH {
      if json[i + 1] == SLASH {
        input := SkipOneline(json, i, text);
      } else if json[i + 1] == STAR {
        input := SkipMultiline(json, i, text);
      }
    } else if c == QUOTE {
      input, output := MinifyString(json, i, o, text, done);
      assert Upto(done, text, i, input) == done + text[i..input];
      return;
    } else {
      CopyByte(json, i, o, text, done);
      output := o + 1;
      assert text[i..i + 1] == [text[i]];
      return;
    }
    assert done + [] == done;
  }

  method Terminate(json: array<byte>, i: nat, o: nat, ghost text: Bytes, ghost done: Bytes)
    requires State(json[..], text, i, o, done) && NulFree(done)
    modifies json
    ensures CString(json[..]) == done && SameFrom(json, |text|)
  {
    json[o] := NUL;
    assert json[..o] == done;
    CStringAt(json[..], o);
  }

  /** What has been written completes, with the filter of what is still to be read, to the filter
      of the whole text. */
  ghost predicate Partial(text: Bytes, i: nat, done: Bytes) {
    i <= |text| && done + Minified(text[i..]) == Minified(text)
  }

  lemma PartialTurn(text: Bytes, i: nat, done: Bytes)
    requires i < |text| && Partial(text, i, done)
    ensures Partial(text, Turn(text, i).0, done + Passed(text, i))
  {
    hide Minified, Passed, Turn;
    MinifiedTurn(text, i);
    var rest := Minified(text[Turn(text, i).0..]);
    assert done + (Passed(text, i) + rest) == done + Passed(text, i) + rest;
  }

  lemma PartialEnds(text: Bytes)
    ensures Partial(text, 0, [])
    ensures forall done: Bytes :: Partial(text, |text|, done) ==> done == Minified(text)
  {
    assert text[0..] == text && text[|text|..] == [];
    forall done: Bytes | Partial(text, |text|, done) ensures done == Minified(text) {
      assert done + [] == done;
    }
  }

  /** cJSON_Minify: one buffer, read at `i` and written at `o`, which never passes `i`. */
  method MinifyInPlace(json: array?<byte>)
    requires json != null ==> exists k :: 0 <= k < json.Length && json[k] == NUL
    modifies json
    ensures json != null ==>
      CString(json[..]) == Minified(old(CString(json[..])))
      && SameFrom(json, |old(CString(json[..]))|)
  {
    hide State, Partial, Minified, CString, Turn, Passed;
    if json == null {
      return;
    }
    ghost var text := CString(json[..]);
    ghost var done: Bytes := [];
    StateBegins(json[..]);
    PartialEnds(text);
    var i: nat, o: nat := 0, 0;
    var c := ByteAt(json, i, o, text, done);
    while c != NUL
      invariant i <= |text| && State(json[..], text, i, o, done) && Partial(text, i, done) && SameFrom(json, |text|)
      invariant c == if i < |text| then text[i] else NUL
      decreases |text| - i
    {
      PartialTurn(text, i, done);
      ghost var passed := Passed(text, i);
      i, o := MinifyTurn(json, c, i, o, text, done);
      done := done + passed;
      c := ByteAt(json, i, o, text, done);
    }
    MinifiedIsNulFree(text);
    Terminate(json, i, o, text, done);
  }

  lemma {:induction false} MinifiedIsNulFree(s: Bytes)
    requires NulFree(s)
    ensures NulFree(Minified(s))
    decreases |s|
  {
    if s != [] {
      AfterCommentIsNulFree(s);
      if IsBlank(s[0]) || (s[0] != SLASH && s[0] != QUOTE) { MinifiedIsNulFree(s[1..]); }
      else if s[0] == QUOTE { MinifiedIsNulFree(s[1 + StringEnd(s[1..])..]); }
      else if |s| > 1 && s[1] == SLASH { MinifiedIsNulFree(AfterLine(s[2..])); }
      else if |s| > 1 && s[1] == STAR { MinifiedIsNulFree(AfterBlock(s[2..])); }
      else { MinifiedIsNulFree(s[1..]); }
    }
  }

  lemma AfterCommentIsNulFree(s: Bytes)
    requires NulFree(s)
    ensures |s| >= 2 ==> NulFree(AfterLine(s[2..])) && NulFree(AfterBlock(s[2..]))
  {
    if |s| >= 2 {
      Suffixes(s[2..]);
    }
  }

  /** What is left after a comment is a suffix. */
  lemma {:induction false} Suffixes(s: Bytes)
    ensures AfterLine(s) == s[|s| - |AfterLine(s)|..] && AfterBlock(s) == s[|s| - |AfterBlock(s)|..]
  {
    if s != [] {
      Suffixes(s[1..]);
    }
  }
}
