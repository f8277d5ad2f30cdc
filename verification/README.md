# A verified model of the JSON engine, the wire messages and the inventory

The server keeps its data in trees of cJSON nodes (`src/cjson/cJSON.c`), sends them as JSON text
(`src/server/Message.cpp`) and counts stock with them (`src/server/InventoryManager.cpp`). This project
models that code in Dafny and proves what it promises, for all inputs and over whole runs. JSON is
RFC 8259, UTF-8 is RFC 3629 and surrogate pairs are RFC 2781.

The model has two layers.

* **Values.** `Json.J` is what a tree of nodes denotes. On it the text of a print (`Rendering`), the grammar the
  parser follows (`Grammar`), escapes and their two-pass decoding (`Strings`, `Utf16`), numbers (`Numbers`), the
  minifying filter (`Minify`, `MinifyText`), comparison (`Compare`), the wire form of a message (`Wire`) and runs of
  the inventory (`Stock`) are functions. What they should be is stated apart from them, in literals: `Syntax` has
  the derivations of RFC 8259 and what they mean, `Language` the texts of each tree, `Decimals` what digits are worth,
  `Layout` how a formatted print differs from a compact one, `Comments` texts with comments. The laws that relate all
  these are lemmas: `Reading` and `Soundness` that the parser reads just the texts of `Language`, `RoundTrip` that
  prints are among them, `MinifySyntax` what minifying does to them, `ItemNumbers` which items the entries of a client
  are about.
* **The heap.** `Nodes.Node` is the C struct, with the ghost fields `children`, `owned` and `tree`; `Node.Valid` says
  that the child list is a ring through `prev` ended by a null `next`, that everything is owned once, and which tree
  the node stands for. `Nodes.Allocator` is the allocation hooks: a ghost set of what is allocated, so that a leak or
  a double free is a failed proof, and a ghost flag that stays set once a request has failed. On this heap the
  parser (`ParseBuffers`, `Parser`), the printer (`PrintBuffers`, `Printer`), deletion, the list mutators (`Lists`,
  `TreeEdits`), lookups (`Lookups`), comparison (`NodeCompare`), the deep copy (`Duplicates`, with lists under
  construction in `Chains`), construction (`Builders`) and the classes `Messages.Message` and
  `Inventory.InventoryManager`, which own the trees of their contents, of the clients and of the stock (`StockList`), are
  methods with the source's branches and loops, each proved against the functions above. `Histories` shows that any
  sequence of calls to the inventory is a run of `Stock`. `Minify.MinifyInPlace` works on one array, as the source
  does.

Any allocation may fail in the model. A method that can fail says what then is true: nothing is left allocated and
nothing that existed has changed, unless its row says otherwise. That a failure is deserved is
stated as "the value layer has no result, or an allocation failed".

Results that a reader of the source or of its comments may not expect:

* `cJSON_PrintPreallocated` needs exactly two bytes more than the text, one beyond the terminator; the comment at
  `include/cjson/cJSON.h:168` advises five.
* The two passes of `parse_string` can disagree, because `parse_hex4` returns 0 for bad digits. The second pass still
  never leaves the allocation.
* `cJSON_Parse` takes more than RFC 8259 derives, and `Language` and `Syntax` say what: any bytes up to 32 as
  whitespace, control bytes in strings, groups with bad digits, `-.5`, `1.` and `01`, and anything after the value.
* Minifying a formatted print is the compact print for more trees than those where no string ends in a backslash;
  the exact condition is `MinifyText.Stable`.
* `cJSON_Minify` can change what a valid text means: the blank in the second string of a list of `\` and `a b` is lost
  (`MinifySyntax.MinifyCanChangeMeaning`), because an escaped backslash before a quote is taken for an escaped quote.
* `cJSON_Compare` is symmetric on all trees but a tree need not compare equal to its own copy: repeated keys must
  carry equal values. It tells integers apart only below 2^52.
* The copy constructor of `Message` does not throw when its content cannot be copied, though
  `include/server/Message.hpp:52` says so; the copy has no content (`Messages.ContentIsLost`). `fromJSONString` loses
  the content in the same silent way when memory runs out for it. `operator=` throws also when the other message
  simply has none, after the old content is gone and the fields are replaced.
* `increaseStock` returns true when there is no memory for a new entry, and records nothing.
* A client whose initial inventory is too deep for `cJSON_Duplicate`, or for which memory runs out, raises the stock
  when added and does not lower it when removed (`Stock.StockIsLeftBehind`).
* A client with a number under a name that `std::stoi` cannot read can never be removed; each attempt takes the
  quantities before that name out of stock (`Stock.StockIsTakenForNothing`).

`dafny verify dfyconfig.toml` checks the whole project.

## Model

| member | source | states |
|---|---|---|
| Utf16.ParseHex4 | src/cjson/cJSON.c:634-667 | the value of four hexadecimal digits; one character that is no digit makes the whole group 0, not an error |
| Utf16.WriteUtf8 | src/cjson/cJSON.c:763-782 | the encoding loop, last byte first, leaves the bytes of section 3 of RFC 3629 in place and the rest of the buffer alone |
| Utf16.LiteralToUtf8 | src/cjson/cJSON.c:671-789 | a literal is decoded and its UTF-8 bytes written, or 0 is returned and nothing is written |
| Utf16.ScalarIsDecoded | src/cjson/cJSON.c:671-729 | every Unicode scalar value, written as one group or as the surrogate pair of RFC 2781, is decoded, taking 6 or 12 characters |
| Utf16.DecodedIsScalar | src/cjson/cJSON.c:671-761 | only scalar values come out, so the test for code points above 0x10FFFF never fires; with proper digits the literal is one that writes the result |
| Utf16.LoneSurrogateIsRefused | src/cjson/cJSON.c:685-717 | a low surrogate first is refused; a high one is accepted exactly when a low one follows in its own group |
| Utf16.Utf8IsShortest | src/cjson/cJSON.c:735-782 | the emitted bytes read back as the code point, no shorter sequence does, and no other of that length does |
| Utf16.Utf8Examples | src/cjson/cJSON.c:735-782 | the examples of section 7 of RFC 3629 are encoded as it says |
| Syntax.UnitIsGroup | src/cjson/cJSON.c:634-667 | `\u` and four digits are a group of value h wherever they stand if and only if the digits, of either case, spell h |
| Utf16.MasksAreArithmetic | src/cjson/cJSON.c:721-782 | the masks and shifts of the source are the quotients and remainders used in the model |
| Strings.PassesCanDisagree | src/cjson/cJSON.c:805-896 | a concrete literal on which the two passes of parse_string fall out of step: a bad group swallows a backslash and the second pass ends one past the quote |
| Strings.StepFits | src/cjson/cJSON.c:838-896 | each step of the second pass keeps: bytes written at most characters consumed minus the escapes the first pass counted there |
| Strings.DecodeFits | src/cjson/cJSON.c:792-896 | for every input, also where the passes disagree, the second pass writes no more than the first pass allocated |
| Syntax.LiteralReads | src/cjson/cJSON.c:792-919 | parse_string reads every spelling of a string by section 7 of RFC 8259, with any mix of raw bytes, short escapes, groups and surrogate pairs, as the bytes meant, and consumes exactly the literal; what escapes mean is a table of its own, in character literals |
| Syntax.StringReads | src/cjson/cJSON.c:792-919 | the same for all that parse_string takes besides: bad groups, which stand for NUL, control bytes, and a second pass that ends one past the quote |
| Syntax.StringIsText | src/cjson/cJSON.c:792-919 | and it takes nothing else: whatever it accepts is such a literal, and what it writes are the bytes that literal stands for |
| RoundTrip.PrintedByte | src/cjson/cJSON.c:955-1031 | each byte is printed as it is, after a backslash, by its short escape if it is a control character that has one, and else as a unit with lower-case digits |
| RoundTrip.QuotedRoundTrip | src/cjson/cJSON.c:922-1041 | parse_string on the printed literal of any bytes gives those bytes back and consumes exactly the literal |
| ParseBuffers.FindEnd | src/cjson/cJSON.c:805-826 | the first pass finds the closing quote and counts the escapes before it, or fails where there is none |
| ParseBuffers.DecodeOne | src/cjson/cJSON.c:838-896 | one turn of the second pass writes what the escape stands for, within bounds, or fails without moving |
| ParseBuffers.Unescape | src/cjson/cJSON.c:838-896 | the second pass computes the decoded text and never writes outside the allocation of the first one |
| ParseBuffers.ParseStringInto | src/cjson/cJSON.c:792-919 | the node gets a fresh, terminated string with the decoded text and the offset is after the literal; or nothing changes and nothing stays allocated |
| ParseBuffers.ParseNumberInto | src/cjson/cJSON.c:307-381 | number, saturated integer and offset of the longest number prefix of at most 63 characters; failure leaves the node alone |
| Numbers.StrtodOfInt | src/cjson/cJSON.c:354-359 | the decimal text of an integer is read back as that integer, in full |
| Decimals.IntTextIsDecimal | src/cjson/cJSON.c:584-587 | the printed text of an integer is a minus sign for negative ones and the decimal digits of its magnitude, without zeros in front |
| Decimals.DigitsAreDecimal | src/cjson/cJSON.c:354-359 | each digit that strtod reads is the decimal digit of the number at that place |
| Decimals.ScaledByTens | src/cjson/cJSON.c:354-359 | an exponent multiplies by that power of ten, or divides by it |
| Decimals.ValueIntRounds | src/cjson/cJSON.c:361-374 | the integer of a number node is the double rounded towards zero, or the nearest int |
| Syntax.NumeralReads | src/cjson/cJSON.c:354-359 | every numeral of section 6 of RFC 8259 is read to its end, as its exact value |
| Syntax.TokenReads | src/cjson/cJSON.c:307-381 | parse_number reads a numeral of at most 63 characters in full, wherever it stands |
| Syntax.StrtodIsNumeral | src/cjson/cJSON.c:354-359 | what strtod reads of a token that begins like a number is a numeral with that exact value; more than section 6 of RFC 8259 allows, it may have zeros in front and no digits on one side of the point |
| Reading.LongNumeralIsRefused | src/cjson/cJSON.c:316-352 | a longer numeral is cut by the copy loop, so that a required terminator is not found |
| ParseBuffers.ParseBuffer.SkipWhitespace | src/cjson/cJSON.c:1058-1081 | stops at the first byte above 32, but on the last byte when only whitespace is left |
| ParseBuffers.ParseBuffer.SkipBom | src/cjson/cJSON.c:1084-1097 | a byte order mark is skipped only when at least five bytes are there |
| Grammar.ParseValue | src/cjson/cJSON.c:1336-1388 | every success strictly advances the offset and stays inside the buffer, for every byte buffer |
| Language.SpelledDerives | src/cjson/cJSON.c:1336-1740 | all that section 2 of RFC 8259 derives, with any gaps and spellings, is in the language of the parser, a relation between texts and trees that is independent of it |
| Reading.ValueReads | src/cjson/cJSON.c:1336-1388 | a text of that language is read at any depth as the tree it derives, up to its end, exactly when the limit leaves room for its nesting; only a number needs something after it that ends it |
| Soundness.ValueIsText | src/cjson/cJSON.c:1336-1740 | conversely whatever parse_value reads, at any place and depth of any buffer, is a text of the language that derives the tree it gives: every bracket closed, elements apart by commas, names before colons |
| Soundness.NumberIsLongest | src/cjson/cJSON.c:307-381 | a number is read as far as any text of a number, of at most 63 characters, goes there |
| Soundness.TerminatedTexts | src/cjson/cJSON.c:1115-1192 | with a required terminator, a text is parsed to a tree if and only if it is a derivation of the tree with gaps around it, after a byte order mark or none, and the tree nests at most 1000 deep |
| Soundness.ParsedTexts | src/cjson/cJSON.c:1195-1198 | without one, a tree that is no number is given if and only if the text begins with such a derivation of it, whatever follows; a number only if it does, and always if nothing follows that a number may hold |
| Soundness.ParsedIsText | src/cjson/cJSON.c:1115-1192 | in any buffer the bytes up to the parse end are such a derivation; the parse ends right after the value, or at a terminator if one is required |
| Soundness.CutTextIsRefused | src/cjson/cJSON.c:1115-1198 | a text of the language, other than a number, is refused when it is cut short anywhere, so every container and string must be closed |
| Soundness.OneMeaning | src/cjson/cJSON.c:1336-1740 | no text derives two trees |
| Soundness.ParseOfDerivation | src/cjson/cJSON.c:1115-1198 | every text that RFC 8259 derives with numerals of at most 63 characters, also after a byte order mark, is parsed as what it means when it nests at most 1000 deep, and refused otherwise, with or without a required terminator |
| Soundness.NestingExactly | src/cjson/cJSON.c:1471-1476 | the limit is on the deepest containers: how deep they nest is the least number that keeps it |
| Parser.ParseValueInto | src/cjson/cJSON.c:1336-1388 | refines the grammar: same tree, same offset, depth restored, and what the node newly owns is exactly what was allocated; or no tree, node unchanged, nothing left allocated |
| Parser.ParseElement | src/cjson/cJSON.c:1497-1526 | a turn of the array loop adds one whole tree at the end of the list, or leaves a list fit to be deleted |
| Parser.ParseElementsInto | src/cjson/cJSON.c:1494-1532 | the array loop yields the elements of the grammar, linked, up to the closing bracket |
| Parser.ParseArrayInto | src/cjson/cJSON.c:1465-1560 | refines the grammar of arrays with the nesting limit; the children form a ring; a failure frees all of them |
| Parser.ParseName | src/cjson/cJSON.c:1674-1694 | the name of a member is parsed as a string and moved to the key; it must be followed by a colon |
| Parser.ParseMemberInto | src/cjson/cJSON.c:1655-1705 | a turn of the object loop adds one named tree at the end of the list, or leaves a list fit to be deleted |
| Parser.ParseObjectInto | src/cjson/cJSON.c:1625-1740 | refines the grammar of objects with the nesting limit; every child has its name; a failure frees all of them |
| Parser.ParseWithLengthOpts | src/cjson/cJSON.c:1115-1192 | for every buffer the result is the tree of the grammar, in fresh nodes that own exactly what was allocated, and the parse end is just after it; or null with nothing allocated and a parse end inside the buffer; without an allocation failure null means the grammar has no tree |
| Parser.Parse | src/cjson/cJSON.c:1195-1198 | the same for a C string, whose terminator is part of the buffer |
| RoundTrip.ParseOfPrint | src/cjson/cJSON.c:1207-1272 | parsing a print, compact or formatted, gives the tree back when containers nest at most 1000 deep and fails for every other printable tree |
| RoundTrip.PrintIsInjective | src/cjson/cJSON.c:1391-1462 | two printable trees of any depth have the same text only if they are equal |
| Soundness.ParsedTrees | src/cjson/cJSON.c:1465-1740 | every tree the parser gives holds strings without NUL and nests no deeper than the depth left under the limit |
| RoundTrip.CutPrintIsRefused | src/cjson/cJSON.c:1195-1283 | a print, compact or formatted, that is cut short anywhere is refused, unless it is that of a number |
| RoundTrip.ParsePrintParse | src/cjson/cJSON.c:1195-1283 | whatever was parsed and has int32 numbers survives being printed and parsed again |
| PrintBuffers.PrintBuffer.Ensure | src/cjson/cJSON.c:458-541 | room for the request and one byte more, with what was written kept, on every growth path; refused only when it cannot fit or an allocation failed |
| PrintBuffers.PrintBuffer.Grow | src/cjson/cJSON.c:506-541 | realloc or allocate, copy and free: the old contents are kept, and the accounting of what is allocated with them |
| PrintBuffers.PrintBuffer.UpdateOffset | src/cjson/cJSON.c:544-554 | the offset is put at the terminator of what was written |
| Printer.PrintNumber | src/cjson/cJSON.c:564-631 | an int32 number is appended as its decimal text |
| Printer.PrintStringPtr | src/cjson/cJSON.c:922-1041 | the escaped literal is appended, the closing quote lands where the first pass counted, null prints as an empty string |
| Printer.PrintValue | src/cjson/cJSON.c:1391-1462 | what was written before is untouched and exactly the pure text of the tree follows, with its terminator; success means it fitted with one byte to spare, failure that it could not or that an allocation failed |
| Printer.PrintArray | src/cjson/cJSON.c:1563-1622 | the same for arrays, through every separator and reallocation |
| Printer.PrintObject | src/cjson/cJSON.c:1743-1854 | the same for objects, with indentation |
| Printer.PrintPreallocated | src/cjson/cJSON.c:1316-1333 | succeeds if and only if the length is at least that of the text plus two, and then the buffer holds the text as a C string |
| Printer.Print | src/cjson/cJSON.c:1207-1272 | a fresh allocation of exactly text and terminator; otherwise null, nothing allocated, and memory ran out or the text is too long for an int |
| Rendering.TextIsNulFree | src/cjson/cJSON.c:544-554 | no text holds a NUL, so that strlen finds its end |
| RoundTrip.CompactPrint | src/cjson/cJSON.c:1275-1283 | the unformatted print spells the tree by a derivation without any whitespace |
| Layout.FormattedIsLaidOut | src/cjson/cJSON.c:1563-1854 | the formatted print of every tree is what a pass over the bytes of the unformatted one gives that knows only which brackets are open: a new line for each member and closing brace, indented by one tab for every open container, a tab after each colon, a space after each comma of an array, strings untouched |
| Minify.SkipOneline | src/cjson/cJSON.c:2833-2844 | skips to after the line, or to the terminator |
| Minify.SkipMultiline | src/cjson/cJSON.c:2846-2858 | skips to after the comment, or to the terminator when it is not closed |
| Minify.MinifyString | src/cjson/cJSON.c:2860-2880 | copies a string verbatim, closed or not, from the read to the write cursor |
| Minify.MinifyInPlace | src/cjson/cJSON.c:2882-2928 | the two-cursor loop over one buffer leaves the filter of the original text there; the write cursor never passes the read cursor and nothing from the old terminator on changes |
| Minify.MinifiedIsStable | src/cjson/cJSON.c:2882-2928 | minifying twice is minifying once, for every text, with unterminated strings and comments too |
| MinifyText.MinifyOfFormatted | src/cjson/cJSON.c:2860-2928 | minifying the formatted print gives the compact print if and only if no string or key ends in a backslash, except one that only closing brackets of arrays follow |
| MinifyText.MinifyOfCompact | src/cjson/cJSON.c:2860-2928 | minifying the compact print of such a tree changes nothing |
| MinifyText.BlanksAreKept | src/cjson/cJSON.c:2860-2880 | a formatted print that is not minified to the compact one |
| MinifySyntax.MinifyRemovesComments | src/cjson/cJSON.c:2833-2928 | a derivable text with line and block comments anywhere between its tokens, in which no string is spelled with a backslash before its closing quote, is minified to the same derivation without comments and whitespace, and parsed as the text without its comments |
| MinifySyntax.MinifyKeepsMeaning | src/cjson/cJSON.c:2860-2928 | a derivable text in which no string is spelled with a backslash before its closing quote is minified to a derivable text without its whitespace, which is parsed to the same tree |
| MinifySyntax.MinifyCanChangeMeaning | src/cjson/cJSON.c:2860-2880 | a list of two strings whose minified text is parsed to another tree: the blank in the second string is lost |
| MinifyText.CleanIsStable | src/cjson/cJSON.c:2860-2880 | in particular a tree where no string or key ends in a backslash meets that condition |
| Compare.FoldingIsAscii | src/cjson/cJSON.c:133-154 | case folding turns the upper-case letters of ASCII into the lower-case ones and leaves all else alone |
| Compare.CompareIsCanonicalEquality | src/cjson/cJSON.c:3030-3153 | on trees of integers below 2^52 in magnitude comparison is equality as order-insensitive maps, together with both trees being consistent under repeated keys |
| Compare.CompareIsSymmetric | src/cjson/cJSON.c:3030-3153 | symmetric on all trees, doubles included |
| Compare.CompareIsTransitive | src/cjson/cJSON.c:3030-3153 | transitive on trees of such integers |
| Compare.WholesEndAtLimit | src/cjson/cJSON.c:557-561 | 2^52 is exact: compare_double tells an integer from all others that are no larger if and only if it is below |
| Compare.OrderDoesNotMatter | src/cjson/cJSON.c:3111-3145 | objects with the same members in any order compare equal, when repeated keys, if any, carry equal values |
| Compare.CompareWithCopy | src/cjson/cJSON.c:3030-3153 | a tree compares equal to its copy exactly when repeated keys carry equal values |
| NodeCompare.CompareNodes | src/cjson/cJSON.c:3030-3153 | the walk over the child lists and the lookups of both directions compute the comparison of the trees, but for two equal pointers, which are equal whatever they hold; below different nodes that shortcut never decides |
| NodeCompare.ChildrenRelated | src/cjson/cJSON.c:3054-3058 | children of two different nodes of owned trees are never the same node, also when one tree lies inside the other, so comparison meets the shortcut only at the call itself |
| Compare.UniqueIsConsistent | src/cjson/cJSON.c:3030-3153 | which unique keys, under the chosen case mode, guarantee |
| Compare.DoublesAreNotTransitive | src/cjson/cJSON.c:557-561 | three doubles on which compare_double is not transitive |
| Compare.DuplicateKeysBreakReflexivity | src/cjson/cJSON.c:3097-3145 | a repeated key with different values makes a tree differ from its copy |
| Compare.FindIsLookup | src/cjson/cJSON.c:1909-1939 | first-match search is lookup in the map from folded keys to values |
| Nodes.Allocator.NewItem | src/cjson/cJSON.c:241-250 | a fresh blank node that is now allocated, or null |
| Nodes.Strdup | src/cjson/cJSON.c:188-207 | a fresh copy of the C string, or null when there is no string or no memory |
| Nodes.Delete | src/cjson/cJSON.c:253-276 | a list of nodes and all they own is freed, each object once, and nothing else |
| Lists.LinkLast | src/cjson/cJSON.c:1957-2016 | the stores of appending turn the ring of a list into the ring of the longer list |
| Lists.Unlink | src/cjson/cJSON.c:2222-2247 | the stores of detaching leave the ring of the list without the node, for first, last, only and inner nodes |
| Lists.LinkBefore | src/cjson/cJSON.c:2312-2323 | the stores of inserting leave the ring of the list with the node at that position |
| Lists.LinkInstead | src/cjson/cJSON.c:2338-2369 | the stores of replacing leave the ring of the list with the other node in that place |
| TreeEdits.AddItemToArray | src/cjson/cJSON.c:1985-2016 | the item is the last child, the container is a whole tree again and stands for the sequence with the new entry at the end; null or the container itself is refused |
| TreeEdits.ArrayItem | src/cjson/cJSON.c:1880-1897 | the child at the position, or null past the end |
| TreeEdits.DetachItemViaPointer | src/cjson/cJSON.c:2216-2250 | exactly the children are detached; both the rest and the detached node are whole trees |
| TreeEdits.DetachItemFromArray | src/cjson/cJSON.c:2252-2260 | the child at the position is detached, null for a negative position or one past the end |
| TreeEdits.InsertItemInArray | src/cjson/cJSON.c:2292-2324 | the entry is inserted at the position, at the end when that is past it |
| TreeEdits.ReplaceItemViaPointer | src/cjson/cJSON.c:2326-2373 | the entry is exchanged in place and the old node freed with all it owns; an item replaced by itself is left alone |
| TreeEdits.DetachUndoesInsert | src/cjson/cJSON.c:2216-2324 | detaching at the position of an insertion gives the old tree back |
| TreeEdits.InsertUndoesDetach | src/cjson/cJSON.c:2216-2324 | inserting a child where it was detached gives the old tree back |
| TreeEdits.ReplaceIsDetachThenInsert | src/cjson/cJSON.c:2216-2373 | replacing is detaching followed by inserting at the same position |
| Lookups.CaseInsensitiveStrcmp | src/cjson/cJSON.c:133-154 | the difference of the first folded characters that differ, 0 exactly for two strings equal up to ASCII case, 1 when one is null |
| Lookups.ObjectItem | src/cjson/cJSON.c:1909-1939 | the first child whose name matches in the chosen case mode; a nameless child ends the case-sensitive search |
| Lookups.SearchIsFind | src/cjson/cJSON.c:1909-1939 | on objects that search is first-match lookup in the members of the tree |
| Duplicates.DuplicateRec | src/cjson/cJSON.c:2747-2831 | an equal tree under the same name in fresh nodes that own exactly what was allocated, the source unchanged; fails only without memory or when a node at depth 10000 or more has a child, and always then |
| Duplicates.Duplicate | src/cjson/cJSON.c:2742-2745 | the same from the root; without recursion the node alone |
| Duplicates.NestingIsCopyable | src/cjson/cJSON.c:2799-2803 | trees that nest at most the copy limit, and so all parsed trees, can be copied |
| Duplicates.DeepIsTooDeep | src/cjson/cJSON.c:2799-2803 | nested one-element arrays cannot be copied exactly when they reach past the limit, so there are trees that Duplicate refuses |
| Duplicates.CopyableExactly | src/cjson/cJSON.c:2799-2803 | any tree can be copied exactly if no node is more than 10000 levels below the root |
| Builders.CreateObject | src/cjson/cJSON.c:2567-2576 | a fresh empty object, or null |
| Builders.CreateNumber | src/cjson/cJSON.c:2463-2487 | a fresh number with its saturated integer, or null |
| Builders.AddItemToObject | src/cjson/cJSON.c:2040-2075 | the item is the last child under a fresh copy of the name, its old name is freed; without memory for the name nothing changes |
| Builders.AddNumberToObject | src/cjson/cJSON.c:2156-2166 | a number field is appended, or nothing changes and nothing stays allocated |
| Wire.SentText | src/server/Message.cpp:33-44 | the bytes that are sent, with the names and punctuation as string literals: clientID, type, subType and, if it can be copied, content, in this order |
| Wire.ReceivedExactly | src/server/Message.cpp:46-68 | a message is read from a text if and only if it is parsed to an object whose first members named clientID, type, subType and content, as string literals, are three numbers and an object; the message holds just these |
| Wire.WireRoundTrip | src/server/Message.cpp:33-68 | a message comes back from the wire equal exactly when its content is an object nesting at most 999 deep; every other message is rejected by the receiver |
| Wire.ReceivedMessages | src/server/Message.cpp:46-68 | whatever text arrives, a message read from it has int fields and object content nesting at most 999 deep, and can, if its numbers are int32, be sent on unchanged |
| Wire.AllOrNothing | src/server/Message.cpp:33-68 | any of the fields may be missing from a text for want of memory: it is then rejected, never taken for another message |
| Messages.SendAndReceive | src/server/Message.cpp:33-68 | a Message object sent and read back: what arrives is the message that was sent, that message without its content when memory ran out, or nothing; without a failure it arrives exactly when its content is an object nesting at most 999 deep |
| Messages.ContentIsLost | src/server/Message.cpp:4-6 | a message whose copy has no content although the message has |
| Messages.Message.Copy | src/server/Message.cpp:4-6 | the fields, and a deep copy in fresh memory; content too deep to copy, or for which memory runs out, is silently lost |
| Messages.Message.Assign | src/server/Message.cpp:8-18 | the old content is freed and the fields are replaced in any case; succeeds with a fresh deep copy, or fails when memory runs out or the other content is missing or too deep, and in the last two cases always; self-assignment does nothing |
| Messages.Message.Destroy | src/server/Message.cpp:20-22 | the content is freed |
| Messages.Message.ToJSONString | src/server/Message.cpp:33-44 | unless memory runs out the result is the wire form, when it fits an int; if it runs out a text may come out, but the receiver takes it for this message or for none; what stays allocated is the object when it could not be printed and, after a failure, a copy of the content that could not be added |
| Messages.FromJSONString | src/server/Message.cpp:46-68 | the message read is the one the wire form stands for, or that one without its content when memory ran out for the copy, or none; only its content stays allocated |
| StockList.AddEntry | src/cjson/cJSON.c:2040-2075 | a new number becomes the last entry under a copy of its name; without memory for the name nothing changes, in a list whose other integers may be stale |
| Inventory.InventoryManager.constructor | src/server/InventoryManager.cpp:4-6 | an empty list of its own, or none without memory |
| Inventory.InventoryManager.IncreaseStock | src/server/InventoryManager.cpp:62-76 | refines the stock event on the nodes of the global inventory; an increase of an unknown item returns true also when there is no memory for its entry, and then nothing is recorded |
| Inventory.InventoryManager.DecreaseStock | src/server/InventoryManager.cpp:78-88 | refines the stock event, with the same verdict; refused decreases change nothing |
| Inventory.InventoryManager.GetStockLevel | src/server/InventoryManager.cpp:90-97 | the level of the item, 0 for one never stocked |
| Inventory.InventoryManager.AddClient | src/server/InventoryManager.cpp:19-33 | refines the step of the run model, with what became of each allocation; throws exactly when a name cannot be read, after the entries before it; a new client has a copy in fresh nodes of its own, an empty inventory or, only without memory or when it is too deep, none |
| Inventory.InventoryManager.RemoveClient | src/server/InventoryManager.cpp:35-52 | refines the step of the run model; throws exactly when a name cannot be read, and the client then stays; otherwise exactly the nodes of that client are freed, those of the others stay whole |
| Inventory.InventoryManager.UpdateClientInventory | src/server/InventoryManager.cpp:103-110 | the old nodes of the client are freed and a fresh copy takes their place, or none without memory or when it is too deep; all stock and all other clients are left alone; null changes nothing |
| Inventory.NamesAreDistinct | src/server/InventoryManager.cpp:65-66 | decimal names of different items differ, also when case is ignored |
| Histories.ServeAll | src/server/InventoryManager.cpp:19-110 | any sequence of calls leaves the object in the state of a run of the model whose operations answer the calls one by one, through failed allocations and exceptions |
| Histories.History | src/server/InventoryManager.cpp:4-110 | for a new manager and any calls: no level is ever negative; and without a failed allocation, when clients with readable names only come and go and stock is only increased, the stock is conserved |
| ItemNumbers.StoiReads | src/server/InventoryManager.cpp:25-43 | std::stoi on blanks, a sign or none, digits and anything that is no digit gives the signed decimal number if it is an int, and throws otherwise |
| ItemNumbers.StoiRefuses | src/server/InventoryManager.cpp:25-43 | without a digit there it throws |
| ItemNumbers.StoiOfInt | src/server/InventoryManager.cpp:25-65 | the name that increaseStock gives an entry is read back as its number |
| ItemNumbers.EntryMovesItsItem | src/server/InventoryManager.cpp:19-52 | an entry of a client, amid any others, moves the level of the item its name is the decimal number of by its quantity, if that is positive, and no other: up when the client is added, down when it is removed and all it holds is in stock |
| Stock.EventsMoveLevels | src/server/InventoryManager.cpp:62-88 | an increase of a positive quantity is accepted, a decrease of one that is in stock; each moves the level of its item by it and no other |
| Stock.StockLedger | src/server/InventoryManager.cpp:19-110 | over every run of all operations, whatever fails or throws, no level is negative, and each is what recorded increases brought in minus what accepted decreases took out |
| Stock.StockBalance | src/server/InventoryManager.cpp:19-110 | over every run of all operations in whose removals no decrease is refused, each level is what direct increases brought in less what direct decreases took out, plus the positive entries of all clients present, corrected by what updates exchanged, by inventories that were not kept and by what is missing |
| Stock.StockConservation | src/server/InventoryManager.cpp:19-76 | over every run of addClient, removeClient and increaseStock: no decrease of a removal fails and each level is what was brought in plus the positive entries of all clients present plus those of clients whose inventory was not kept, if and only if no entry is lost for want of memory and no removal throws after a positive entry |
| Stock.ReadableRunsAreUnbroken | src/server/InventoryManager.cpp:19-52 | with memory and readable names that condition holds |
| Stock.StockIsTakenForNothing | src/server/InventoryManager.cpp:35-52 | a removal that throws: the stock is taken out and the client that holds it stays |
| Stock.NoOrphans | src/server/InventoryManager.cpp:19-33 | every inventory is kept when there is memory and none is too deep to copy |
| Stock.AddThenRemove | src/server/InventoryManager.cpp:19-52 | a client that comes and goes leaves no stock behind, except all its positive entries when the inventory was not kept |
| Stock.StockIsLeftBehind | src/server/InventoryManager.cpp:19-52 | an inventory of five of item 1 and an entry too deep to copy: after the client has come and gone, five are in stock |

## Left out

- Printer.PrintNumber: only doubles equal to their integer, printed with `%d`; the two `%g` attempts, NaN and infinity depend on sprintf and sscanf, which are not part of this model.
- ParseBuffers.ParseNumberInto: strtod is exact decimal reading over reals; rounding to a double, overflow to infinity and the decimal point of other locales are not modelled.
- Compare.CompareIsCanonicalEquality: number comparison is exact arithmetic on reals, so rounding inside compare_double is not modelled; invalid and raw nodes are left out.
- NodeCompare.CompareNodes: nodes have one owner each, so two trees that share a node below different parents do not occur.
- Parser.ParseWithLengthOpts: after a failure the parse end is only said to be inside the buffer; the global error position, which is the same, is not modelled.
- ParseBuffers.ParseStringInto: after a failure the offset is only said to be inside the buffer.
- Nodes.Delete: string pointers are not cleared in a node that is about to be freed; reference nodes and constant keys are left out.
- Printer.PrintValue: trees whose numbers are int32 and that hold no raw nodes, as for PrintNumber.
- Printer.PrintArray: as PrintValue.
- Printer.PrintObject: as PrintValue.
- Printer.PrintPreallocated: as PrintValue; the hooks of a preallocated print are fresh ones, since nothing is ever requested from them.
- Printer.Print: as PrintValue.
- Duplicates.DuplicateRec: reference nodes and constant keys are left out.
- Duplicates.Duplicate: as DuplicateRec.
- TreeEdits.DetachItemViaPointer: a node that is linked into the list of another parent is left out; the source then unlinks it from there.
- Builders.AddItemToObject: constant keys are left out.
- Lookups.ObjectItem: tolower is that of the C locale.
- Messages.Message.ToJSONString: which fields are missing from the text after a failed allocation is left open.
- Messages.Message.Copy: the message structure itself is not counted as an allocation.
- Inventory.InventoryManager.IncreaseStock: levels are exact, so rounding beyond 2^53 is not captured.
- Inventory.InventoryManager.DecreaseStock: as IncreaseStock.
- Inventory.InventoryManager.GetStockLevel: for levels that fit an int, where the cast is defined.
- Inventory.InventoryManager.AddClient: quantities must fit an int, where the cast is undefined, and number entries must be members of an object, since those of an array have no name for std::stoi.
- Inventory.InventoryManager.RemoveClient: as AddClient; edits of the nodes that getClientInventory hands out are left out.
- Inventory.InventoryManager.UpdateClientInventory: an update that is, or shares nodes with, the inventory kept for the client is left out, since the source frees it before copying it.
- Histories.ServeAll: inventories handed over are the caller's own and hold quantities that fit an int; a call that throws is caught.
- The destructor of InventoryManager: it deletes the trees that Valid says it owns, one by one.
- Soundness.ParseOfDerivation: escapes of surrogates that are no pair, which RFC 8259 can derive but which stand for no character, are refused by the parser and are no derivations here.
- MinifySyntax.MinifyRemovesComments: a comment that the end of the text cuts off, and lone slashes, which are dropped, are left to Minify.Minified.
- MinifySyntax.MinifyKeepsMeaning: which texts with a backslash before a closing quote keep their meaning is left open.
- Raw nodes, reference nodes, constant keys and the aliasing of cJSON_SetValuestring: more flags and cases, no harder theorem.
- cJSON_InitHooks: the hooks are one allocator; which functions they call is not part of this model. The copy without realloc is covered by a flag.
- Sizes that overflow size_t, and the stack that recursion needs.
- cJSON_PrintBuffered: it starts from a guess of the size that may be 0, where the growing buffer of the model is never empty.
- The array constructors, cJSON_GetArraySize and the ReplaceItemInObject and DetachItemFromObject families: compositions of what is modelled.
- logTransaction and detectInventoryAnomalies of InventoryManager: they do nothing yet.
- MessageDispatcher, NetworkManager, ClientConnection, the client and the loggers: input and output. NotificationSystem and Authentication: small map updates.
