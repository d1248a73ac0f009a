# Wake-on-LAN service: a verified model

The repository wakes machines up over the internet. Devices (ESP8266) keep a connection to a server,
tell it who they are, and beat every few seconds; a user asks the server for the list of devices or
asks it to wake one up, and the device sends the magic packet. All messages are JSON, read and written
with a copy of the cJSON library.

This project models that system in Dafny and proves what it is for:

* **The JSON library.** `Grammar` gives the concrete syntax of RFC 8259 with comments in its
  whitespace slots, `Literal` and `Numerals` the strings and numbers, `JsonTree` the value of a tree.
  `ParserSpec` says what the parser makes of every text and proves that it reads the grammar back,
  `ParserSound` that it accepts nothing else, and `ErrorPosition` what its error pointer points at.
  `PrinterSpec` says what the printer writes, `Layout` what that looks like byte for byte, and
  `RoundTrip` that parsing undoes it.
  `Minify` and `MinifyMeaning` do the same for the comment stripper. On the heap, `Nodes` describes
  the linked tree and the allocator, which may refuse any request; `NodeParser`, `ParseText`,
  `Delete`, `BufferedPrinter`, `SimplePrinter`, `ListOps`, `ObjectOps` and `Duplicate` are the code
  itself, proved against those specifications together with what becomes of every block of memory.
* **Presence.** `Epolls` and `Servers` are the server's main loop and its table, proved against the
  state machine in `Presence`; `Bindings` is what the table comes to over whole runs: who is bound to which
  key and so gets which orders. `Devices` is the device's bind and beat loop. `Liveness` puts the two
  programs' clocks and constants together.
* **Messages.** `ClientLists` follows the list of clients from the format strings that write it to the
  parser that reads it; `WakeOnLan` and `DeviceCommands` do the same for the orders that the server sends
  on, up to the packets that the device broadcasts and the answer that it sends back.
* **`JsonLength`** is the breadth-first node counter.

How things are represented: bytes are integers from 0 to 255, and a C string is a sequence with an
implicit terminator or an array that holds one. A tree on the heap comes with a ghost `Shape` that
names its objects in their places. `Library` is the allocator and the error position; its `live` set is
what has been handed out and not freed, `denied` says that a request was refused. Whether the kernel
takes a descriptor in, whether a `send` succeeds and whether a socket can be opened are parameters. Pointers into a text
are indices, and a null result is -1 or null. The numerals that `sprintf` produces for numbers that are
not integers are a parameter (`libc`). Doubles are exact reals. Times are microseconds.

Findings that the contracts state:

* A node whose name is flagged constant keeps that flag in a copy, although the copy owns its name:
  deleting the copy leaks exactly those names (`Duplicate.DuplicateThenDelete`).
* The formatted buffered printer loses the start of a nested object: the pointer it returns is the
  object's depth instead of its offset. The two agree exactly when nothing but opening brackets of lists
  stands before the object (`NestedStart.AnswerIsRight`, and `NestedStart.InnerObject` where they do not);
  the callers ignore the pointer.
* `cJSON_ReplaceItemInObject` overwrites the name of the new item without freeing it, and if the item
  still says that its name is constant it is the copy of the key that nobody frees
  (`ObjectOps.ReplaceItemInObject` says which block is lost, and that it is the only one).
* `cJSON_Minify` takes `/*/` for a whole comment (`MinifyMeaning.CommentEndsRight` says exactly when
  it finds the right end, `MinifyMeaning.CommentLeftOver` is a text that it spoils).
* A non-integer as small as `DBL_EPSILON` prints as `0` (`RoundTrip.TinyNumberIsLost`), and the name of a
  list's child, which a member keeps when it is detached and appended to a list, is not printed
  (`RoundTrip.ItemNameIsLost`). The round trip holds exactly when every number is the one its numeral
  denotes and no child of a list has a name (`RoundTrip.ExactRoundTrip`).
* Besides JSON the parser takes a minus sign alone, numerals with one leading zero, exponents without digits,
  any byte from 1 to 32 as a blank, any byte but `u` after a backslash, and a string without its closing
  quote if nothing else is in the text: `ParserSound.AcceptsExactly` has the whole of it. The error pointer
  is where the longest part of the text ends that can be completed (`ErrorPosition.ErrorIsWhereItGoesWrong`),
  except that it stays at the start of a misspelt word.
* What `valueint` holds makes no difference to the text of a number that an `int` cannot hold, nor of zero;
  `PrinterSpec.HarmlessPrints` says exactly when it makes none.
* The device's lookups compare the names of the children they look at without asking whether there are
  any. Of the messages that parse, those that are a list with `true` or a string in it make them compare
  with null, and only those (`DeviceCommands.SafeToRead`, with `[true]` in `DeviceCommands.ListOfTrue`).
* `getLenght` does not enter a node with a flag bit set, so it misses everything below a container
  added under a constant name (`JsonLength.CountsAll`, `JsonLength.ConstantNameHides`).
* The server forgets a device after 10 s, the device beats every 6 s but may take up to 8 s and the
  delay of its loop: that delay and the time until a message is handled may together come to two seconds
  and one microsecond, and no more. The device gives up at the fourth message when three are unanswered,
  and around a bind those may go out within 14 s and a microsecond: replies may take 14 s and no more, or
  18 s and no more if the loop is never late. Both bounds together are necessary and sufficient
  (`Liveness.LastingIsLenient`).

## Model

| member | source | states |
|---|---|---|
| `Utf8.DecodeEncode` | cJSON.cpp:226-238 | every scalar value is encoded as one valid UTF-8 character that decodes back to it |
| `Utf8.EncodeDecode` | cJSON.cpp:226-238 | and that encoding is the only one: every valid character is the encoding of what it decodes to |
| `Utf8.EncodeTable` | cJSON.cpp:229-237 | the bytes of an encoding, in the ranges and bit fields of section 3 of RFC 3629 |
| `Utf8.MaskedBytes` | cJSON.cpp:232-235 | the masks and shifts of the source on 32-bit words are the divisions and remainders the model uses |
| `Utf8.MarkedByte` | cJSON.cpp:236 | or-ing the mark of the first byte in is adding it |
| `Utf8.MaskedPair` | cJSON.cpp:226 | the source's combination of two surrogates is the scalar value of RFC 2781 section 2.2 |
| `Utf8.RunIsValid` | cJSON.cpp:226-238 | a byte-at-a-time recogniser accepts exactly the texts that split into valid characters |
| `Literal.LexRender` | cJSON.cpp:192-205 | scanning the text of any well-formed literal gives back its elements and stops at its closing quote |
| `Literal.LexSound` | cJSON.cpp:192-205 | whatever the scanner accepts is the text of the elements it returns |
| `Literal.HexLaw` | cJSON.cpp:177-188 | the digits of base sixteen, in either case and no others |
| `Literal.EscapeLaw` | cJSON.cpp:207-216 | what a backslash and a byte stand for, byte by byte |
| `Literal.UnitLaw` | cJSON.cpp:177-188 | four digits write a code unit in base sixteen |
| `Literal.UnitDenotes` | cJSON.cpp:219-237 | a code unit that is a scalar value stands for its encoding |
| `Literal.PairLaw` | cJSON.cpp:222-226 | two surrogates stand for the one scalar value whose upper and lower ten bits they hold |
| `Literal.LoneSurrogates` | cJSON.cpp:220-225 | a surrogate alone stands for nothing, and a first one takes whatever code unit follows with it |
| `Literal.ReadFromTheLeft` | cJSON.cpp:203-244 | and the literal stands for what these steps stand for, one after the other |
| `Literal.Grinning` | cJSON.cpp:226 | an escaped U+1F600 and its four bytes |
| `Literal.DenoteFits` | cJSON.cpp:197-199 | the bytes a literal denotes never exceed what the measuring pass counts |
| `Literal.DenoteHasNoNul` | cJSON.cpp:219 | no literal denotes a NUL byte: `\u0000` contributes nothing |
| `Literal.DenoteIsUtf8` | cJSON.cpp:192-249 | if the raw bytes of a literal are valid UTF-8, so is everything it denotes |
| `StringParser.ParseHex4` | cJSON.cpp:177-188 | four hexadecimal digits give their value, anything else 0 |
| `StringParser.MeasureLiteral` | cJSON.cpp:197 | the first pass computes the measure of the scanned literal and stops at its closing quote |
| `StringParser.PutUtf8` | cJSON.cpp:229-237 | writing from the last byte to the first leaves the encoding in place and everything around it untouched |
| `StringParser.DecodeUnicode` | cJSON.cpp:217-238 | one `\u` escape, or two that form a pair, contribute exactly the bytes they denote |
| `StringParser.DecodeLiteral` | cJSON.cpp:202-247 | the second pass stops at the same quote as the first and leaves the denoted bytes and a NUL inside the block |
| `Numerals.LexRender` | cJSON.cpp:96-109 | scanning the text of any numeral, even one that only the scanner takes, gives it back and consumes exactly it if nothing carries it on |
| `Numerals.LexSound` | cJSON.cpp:100-107 | whatever is scanned is the text of the numeral that is found |
| `Numerals.ParseNumber` | cJSON.cpp:96-115 | the loops compute the value of the scanned numeral, exactly |
| `Numerals.ValueLaw` | cJSON.cpp:109 | that value in integers: times or divided by the power of ten that the exponent and the fraction leave, it is the signed digits |
| `Numerals.DigitsLaw` | cJSON.cpp:102-106 | each digit counts by its place |
| `Numerals.TenToLaw` | cJSON.cpp:109 | the powers of ten by which it does |
| `Numerals.SomeValues` | cJSON.cpp:96-115 | `1.5`, `1e2` and `-12.5e-1` |
| `Numerals.IntNumeralIsExact` | cJSON.cpp:159 | the decimal form of an integer is a well-formed numeral with that value |
| `Numerals.DecimalLength` | cJSON.cpp:157-158 | the number of decimal digits is bounded, so the 21 bytes asked for are enough |
| `CText.AsciiCodes` | cJSON.cpp:357-369 | the bytes that the parser looks for are the codes of the characters in the source |
| `ParserSpec.ParseRender` | cJSON.cpp:357-369 | on the text of any tree with blanks in its slots, its numerals as lenient as the scanner, the parser consumes exactly that text and returns the tree it denotes |
| `ParserSpec.ParseTextRender` | cJSON.cpp:323-337 | the same for whole texts, with the error position when a terminator is required and something else follows |
| `ParserSpec.EntriesRender` | cJSON.cpp:416-428 | children are read one by one up to the closing bracket |
| `ParserSound.ValueSound` | cJSON.cpp:357-369 | whatever span the parser accepts is the text of a tree with blanks in its slots and has its value, unless the span is a string that breaks off |
| `ParserSound.AcceptsExactly` | cJSON.cpp:323-337 | the texts that are accepted up to their end are exactly blanks, the text of such a tree and blanks, or blanks and a string without its closing quote |
| `ParserSound.RfcTextParses` | cJSON.cpp:320 | in particular every text of RFC 8259, its whitespace written out |
| `ErrorPosition.Completes` | cJSON.cpp:35-37 | what stands before the error position can be completed to a text that is accepted |
| `ErrorPosition.ErrorIsWhereItGoesWrong` | cJSON.cpp:323-369 | and what stands there cannot: every text that goes on in the same way is rejected at the same place, unless what has been seen may still become a word or carry a number on |
| `PrinterSpec.QuoteRoundTrip` | cJSON.cpp:252-307 | the escaped form of any string without NUL is a well-formed literal that denotes the string |
| `PrinterSpec.PrettyText` | cJSON.cpp:434-658 | what is printed is the text of a concrete tree, at every depth and in both formats |
| `Layout.StringLayout` | cJSON.cpp:280-306 | a printed string, byte by byte |
| `Layout.IntegerLayout` | cJSON.cpp:157-162 | a printed integer: a minus sign if it is negative, and decimal digits without leading zeros |
| `Layout.NumberLayout` | cJSON.cpp:147-175 | which numbers are printed as integers, and as which |
| `Layout.WordLayout` | cJSON.cpp:379-381 | `null`, `false` and `true` |
| `Layout.ListLayout` | cJSON.cpp:434-509 | lists on one line, with a space after each comma when formatted |
| `Layout.ObjectLayout` | cJSON.cpp:572-603 | objects: one member to a line, tabs before its key, a colon and a tab before its value, a comma behind it, and tabs before the closing brace; unformatted, none of that |
| `Layout.EmptyObjectLayout` | cJSON.cpp:560-570 | an empty object, whose brace stands one tab further to the left when formatted |
| `PrinterSpec.IntNumbersStay` | cJSON.cpp:157-162 | numbers that fit an `int` are printed as numerals of the same value |
| `PrinterSpec.HarmlessPrints` | cJSON.cpp:147-175 | for which numbers and `valueint` the text is that of the number alone, however the C library formats numbers |
| `PrinterSpec.BeyondInt` | json.cpp:51-64 | 3000000000 with the `valueint` that a 32-bit assignment leaves is one of them |
| `RoundTrip.PrettyMeaning` | cJSON.cpp:372-403 | that concrete tree is well-formed and denotes what was printed, up to the rounding of numerals and the names of list children |
| `RoundTrip.PrettyWellFormed` | cJSON.cpp:372-403 | it is well-formed whatever the tree |
| `RoundTrip.ParsePrint` | cJSON.cpp:342-369 | parsing a printed text, whatever follows, gives the tree back, without names in lists, and stops at its end |
| `RoundTrip.ExactRoundTrip` | cJSON.cpp:147-175 | the round trip is exact if and only if every number equals the numeral it is printed as, which int32 numbers always do, and no child of a list has a name |
| `RoundTrip.TinyNumberIsLost` | cJSON.cpp:157 | a number that is printed as 0 although it is not 0 |
| `RoundTrip.ItemNameIsLost` | cJSON.cpp:671-719 | a list whose child has a name, which comes back without it |
| `RoundTrip.TextIsPrintable` | cJSON.cpp:323-337 | every value that the parser returns, whatever the text, can be printed, and no list in it has a named child |
| `Minify.MinifyInPlace` | cJSON.cpp:735-750 | the loop, which writes behind where it reads in the same array, leaves the minified text and a terminator |
| `Minify.CopyLiteral` | cJSON.cpp:746 | a string literal is moved as it is, up to the right closing quote |
| `Minify.MinifiedShrinks` | cJSON.cpp:737-749 | the result is never longer than what is left to read |
| `MinifyMeaning.MinifyStrips` | cJSON.cpp:735-750 | on the text of a tree with comments and the whitespace of RFC 8259 in its slots the result is the text of the tree with empty slots |
| `MinifyMeaning.MinifyKeepsMeaning` | cJSON.cpp:735-750 | so strictly parsing the result gives the tree that the original denotes |
| `MinifyMeaning.NoBlankIsLeft` | cJSON.cpp:740-747 | on any text the result has no space, tab, line feed or carriage return outside its string literals |
| `MinifyMeaning.MinifyFormatted` | cJSON.cpp:342-343 | minifying the formatted print of any tree gives its unformatted print, byte for byte |
| `MinifyMeaning.CommentEndsRight` | cJSON.cpp:745 | the end of a block comment is found exactly when its body does not start with a slash |
| `MinifyMeaning.CommentLeftOver` | cJSON.cpp:745 | a text where it is not, and what becomes of it |
| `Nodes.Library.NewItem` | cJSON.cpp:73-78 | a zeroed node, or a refusal that changes nothing |
| `Nodes.Library.Free` | cJSON.cpp:88-90 | only what is live may be freed, so nothing is freed twice |
| `Nodes.StrDup` | cJSON.cpp:49-58 | a copy of a string in a block of its own |
| `Nodes.SegmentJoin` | cJSON.cpp:666 | two runs of siblings whose ends point at each other make one |
| `Delete.DeleteChain` | cJSON.cpp:81-93 | deleting frees every block that the tree owns, each of them while it is live |
| `NodeParser.ParseString` | cJSON.cpp:192-249 | on success a fresh string holds what the specification parses; on failure nothing stays allocated |
| `NodeParser.ParseValue` | cJSON.cpp:357-369 | whatever is refused, all that was allocated hangs off the item as a proper tree; on success its value and the end are those of the specification |
| `NodeParser.ParseSiblings` | cJSON.cpp:418-431 | the loop over the commas links each child behind the one before, keeping the chain proper |
| `NodeParser.ParsePair` | cJSON.cpp:525-529 | the key moves to the name before the value is parsed; failures leave both owned by the item |
| `NodeParser.ParseNest` | cJSON.cpp:406-431 | an array, or with keys an object (cJSON.cpp:514-547), as a tree under construction |
| `ParseText.ParseWithOpts` | cJSON.cpp:323-337 | the result is a tree of fresh blocks that lacks no string and has the value of the specification, or nothing is left behind and the error position is right |
| `ParseText.ParseThenDelete` | smart_config/user/user_main.c:511-559 | a parse and the deletion of its tree conserve memory for every text and every pattern of refused requests |
| `StringPrinter.PlainBody` | cJSON.cpp:254-267 | the fast path writes what the escaping path would |
| `StringPrinter.EscapedLength` | cJSON.cpp:278 | the length computed beforehand is that of the escaped text |
| `StringPrinter.WriteQuoted` | cJSON.cpp:260-306 | both ways of writing produce the quoted string and its NUL inside the block that was asked for |
| `Pow2gt.Compute` | cJSON.cpp:117 | from 1 to 2^30 the result is the least power of two that is not below the argument |
| `Pow2gt.Double` | cJSON.cpp:117 | each shift-and-or doubles the run of ones below the top bit |
| `PrintBuffers.PrintBuffer.Ensure` | cJSON.cpp:121-136 | room for what is needed, with everything so far preserved; a refusal frees the buffer and is final |
| `PrintBuffers.PrintBuffer.StillCheap` | cJSON.cpp:128-131 | over any run of regrowths fewer bytes are copied than the first and the present block hold together |
| `PrintBuffers.PrintBuffer.Update` | cJSON.cpp:138-144 | the offset plus the length of the string that stands there |
| `PrintedText.NumberFits` | cJSON.cpp:147-175 | 2, 21 and 64 bytes are enough for what is printed into them |
| `PrintedText.HasNoNul` | cJSON.cpp:143 | no printed text contains a NUL, which the measuring by `strlen` relies on |
| `BufferedPrinter.PrintNumber` | cJSON.cpp:147-175 | the numeral of the number at the offset, whatever its `valueint` |
| `BufferedPrinter.PrintStringPtr` | cJSON.cpp:252-307 | the quoted string at the offset |
| `BufferedPrinter.PrintValue` | cJSON.cpp:372-388 | what stands before the offset and the string at the offset make up the old text and the printed value; the old text is kept through every regrowth |
| `BufferedPrinter.PrintArray` | cJSON.cpp:434-468 | the same for arrays, whose offset ends up at the closing bracket |
| `BufferedPrinter.PrintObject` | cJSON.cpp:550-609 | the same for objects, with the pointer that is returned |
| `NestedStart.StartsThere` | cJSON.cpp:434-609 | where the text of a nested item starts in the text of the whole tree |
| `NestedStart.AnswerIsRight` | cJSON.cpp:604-606 | the pointer returned for a nested object is the start of its text exactly if only opening brackets of lists stand before it |
| `NestedStart.InnerObject` | cJSON.cpp:604-606 | an object inside an object starts at 8 and is answered with 1 |
| `BufferedPrinter.PrintBuffered` | cJSON.cpp:345-353 | the text of the specification in one block, or nothing if a request was refused and then nothing stays allocated |
| `SimplePrinter.PrintValue` | cJSON.cpp:389-403 | the text of the specification in one fresh block, everything else freed, or nothing at all |
| `SimplePrinter.ItemsFit` | cJSON.cpp:437-486 | the sizes added up for an array are enough for its text |
| `SimplePrinter.MembersFit` | cJSON.cpp:554-620 | the sizes added up for an object are enough for its text |
| `SimplePrinter.CollectItems` | cJSON.cpp:475-482 | the pieces of an array, with the total size, or a failure after which the table still knows every block |
| `SimplePrinter.CollectMembers` | cJSON.cpp:618-626 | the pieces of an object, which go on being printed after a failure |
| `SimplePrinter.ComposeItems` | cJSON.cpp:498-508 | putting the pieces together stays inside the block and frees each piece once |
| `SimplePrinter.ComposeMembers` | cJSON.cpp:640-655 | the same for objects |
| `SimplePrinter.PrintTree` | cJSON.cpp:342-343 | `cJSON_Print` and `cJSON_PrintUnformatted` give the text of the specification |
| `Standing.TreeStands` | cJSON.cpp:372-403 | a tree whose strings and names are there, and whose `valueint` fields do no harm, meets what the printers ask for, references and constant names or not |
| `Standing.TidyIsHarmless` | cJSON.cpp:111-113 | the `valueint` that the parser leaves does no harm |
| `EndToEnd.PrintBothWays` | cJSON.cpp:342-353 | both printers give the text of the specification, each unless it is refused memory |
| `EndToEnd.PrintAndParse` | cJSON.cpp:323-353 | printing any tree and parsing the text back gives its value, without names in lists, and leaves the memory as it was |
| `EndToEnd.ParsedTreesStand` | cJSON.cpp:323-403 | what the parser returns meets what the printers ask for |
| `EndToEnd.StandsIsPrintable` | cJSON.cpp:372-403 | the value of any tree that can be printed is one that a text stands for |
| `EndToEnd.CopyStands` | cJSON.cpp:708-733 | a copy is printed as the same text as its original |
| `EndToEnd.ParsePrintParse` | cJSON.cpp:323-353 | parsing any text that is accepted, printing the tree and parsing again gives the value back, with its numbers as printed, and leaves the memory as it was |
| `Siblings.SuffixObject` | cJSON.cpp:666 | hanging a node behind a chain keeps the chain and what its trees stand for |
| `ListOps.GetArraySize` | cJSON.cpp:661 | the number of children |
| `ListOps.GetArrayItem` | cJSON.cpp:662 | the child at an index, the first for a negative one, none past the end |
| `ListOps.AddItemToArray` | cJSON.cpp:671 | appends |
| `ListOps.DetachItemFromArray` | cJSON.cpp:677-678 | takes out the child at an index and leaves it whole and alone; past the end nothing changes |
| `ListOps.DeleteItemFromArray` | cJSON.cpp:679 | takes it out and frees exactly its blocks |
| `ListOps.InsertItemInArray` | cJSON.cpp:684-685 | inserts before an index, or appends past the end |
| `ListOps.ReplaceItemInArray` | cJSON.cpp:686-688 | puts a tree in the place of a child and frees the child; past the end nothing changes |
| `ListRuns.Perform` | cJSON.cpp:671-688 | each operation is the sequence operation of its name on the children and the trees at hand: what is detached can be used again, what is in neither any more has been freed, and the chain stays proper |
| `ListRuns.PerformAll` | cJSON.cpp:671-688 | so is every run of them, moves included |
| `ListRuns.MoveBack` | cJSON.cpp:677-685 | detaching a child and inserting it at the same index changes nothing |
| `ObjectOps.StrCaseCmp` | cJSON.cpp:39-44 | zero exactly for strings of the same length whose bytes are equal or the capital and the small form of an ASCII letter |
| `ObjectOps.FoldsLetters` | cJSON.cpp:42 | `tolower` identifies the two forms of a letter and nothing else |
| `ObjectOps.GetObjectItem` | cJSON.cpp:663 | the first child whose name matches, constant names among them; where the tree owns its names, the first member of that name |
| `ObjectOps.DetachItemFromObject` | cJSON.cpp:680 | takes out the first child whose name matches, or changes nothing |
| `ObjectOps.ReplaceItemInObject` | cJSON.cpp:689 | the new tree takes a copy of the key as its name and the place of the first match, which is freed, and is what a lookup finds from then on; the only block lost is the name that it had, or the copy if its name was constant |
| `Ownership.OwnedObjects` | cJSON.cpp:81-93 | a tree owns all its blocks but the names flagged constant |
| `Ownership.DeleteAll` | cJSON.cpp:81-93 | deleting a tree without references gives back all of it but those names |
| `Duplicate.SameValue` | cJSON.cpp:716-719 | nodes that agree in every copied field have the same value and name |
| `Duplicate.ConstantsShown` | cJSON.cpp:717 | whether a tree has names flagged constant can be read off its contents |
| `Duplicate.Duplicate` | cJSON.cpp:708-733 | a tree of fresh blocks with the same contents, no reference flags and no siblings; if refused, at most copied constant names are left |
| `Duplicate.DuplicateThenDelete` | cJSON.cpp:708-733 | deleting the copy leaves the original as it was and gives back all but the constant names, and all if and only if there are none |
| `Duplicate.DuplicateThenDrop` | cJSON.cpp:708-733 | deleting the original, references and all, frees only what it owns and leaves the copy with the value that the original showed |
| `JsonLength.GetLength` | json.cpp:526-572 | the queue empties, and the result is the number of nodes that the walk reaches |
| `JsonLength.CountsAll` | json.cpp:547-566 | that is all the descendants if and only if only nodes that the walk enters have children |
| `JsonLength.UnflaggedCountsAll` | json.cpp:547-566 | where no flag bit is set and only lists and objects have children, everything is counted |
| `JsonLength.ConstantNameHides` | json.cpp:560 | below a child with a constant name, or one that is a reference, nothing is counted, so the count is too small if there is anything |
| `Epolls.Epoll.Ctl` | epoll.cpp:66-101 | the counter is the number of registered descriptors after every call; adding works for a new one that the kernel takes, removing for a registered one |
| `Epolls.Epoll.Add` | epoll.cpp:103-118 | and the listener's slot is set only on success |
| `Epolls.Epoll.Del` | epoll.cpp:120-141 | and cleared with the listener |
| `Presence.OrdersReachTheirDevice` | main.cpp:294-311 | an order is answered with true exactly if some connected device is bound to its key and its address can be read, and then it is sent on once, to the first such device |
| `Presence.Stays` | main.cpp:436-438 | over every run, a client refreshed at T or later is there until T + 10 s unless it closes |
| `Presence.Gone` | main.cpp:616-637 | over every run, a client that gives no sign of life after T is gone by T + 20 s and the longest turn of the loop |
| `Presence.SettledAt` | main.cpp:618-622 | at every step no deadline, a client's or the sweep's, is more than 10 s after the step before |
| `Presence.TurnsKeepAndRemove` | main.cpp:616-642 | whatever timely turns of the main loop bring, every sign of life keeps its client for 10 s unless it closes, and 20 s and a turn of silence remove it |
| `Presence.FitsRun` | main.cpp:115-216 | over every run the fields of a connected client stay within their buffers |
| `Bindings.BindLasts` | main.cpp:204-220 | over every run, a connection that binds itself has its key, network and address for as long as it is there and does not bind itself again |
| `Bindings.OrdersReachTheBound` | main.cpp:294-406 | meanwhile an order for its key, if no lower descriptor is bound to it, is answered with true and goes to it alone |
| `Bindings.AcceptedFrom` | main.cpp:115-122 | over every run, an accepted connection starts with the address it came from and nothing else, and the address stays until the descriptor is used again |
| `Bindings.WhoGoes` | main.cpp:153-166 | who closes is gone, and at a sweep (main.cpp:618-637) whose deadline has passed, and nobody else |
| `Bindings.OtherReplies` | main.cpp:182-429 | which messages other than orders are answered with true, and what is sent on for a warning |
| `Servers.Server.HandleAccept` | main.cpp:92-126 | a new connection takes its slot and is registered, or neither |
| `Servers.Server.HandleHangup` | main.cpp:153-166 | a closed connection leaves both |
| `Servers.Server.Obey` | main.cpp:180-429 | what each command does to the table, what is handed to `send` for devices and for the notice service, and what the reply says |
| `Servers.Server.HandleMessage` | main.cpp:430-450 | what is answered and sent on; only a reply that says true counts as a sign of life |
| `Servers.Server.DoTick` | main.cpp:618-637 | the sweep removes exactly the expired clients |
| `Servers.Server.Counts` | main.cpp:616 | the counter is one more than the number of enabled slots, so the loop condition holds |
| `Servers.Server.HandleSocket` | main.cpp:88-166 | what the kernel reports happens to the table, with its own time, descriptor, address and command |
| `Servers.Server.MainLoop` | main.cpp:616-642 | the loop makes every turn, and what happens is what its turns and arrivals report, one by one and nothing else; so in timely turns signs of life keep a client and silence removes it, at every step and in the table as it is left |
| `Devices.Device.Check` | smart_config/user/user_main.c:422-502 | when a bind or a beat goes out, what a failed send leaves as it was, and when the link is given up |
| `Devices.Device.Receive` | smart_config/user/user_main.c:517-525 | a reply of true clears the lost count |
| `Devices.Periods` | smart_config/user/user_main.c:424-502 | what is due when after a message: nothing for 6 s, then a beat, and 60 s after a bind another one |
| `Devices.ThreeUnanswered` | smart_config/user/user_main.c:426-431 | after three messages in a row without a reply, and no fewer, the link is dropped when the next is due |
| `Liveness.Accepted` | main.cpp:109-120 | any connection that the server accepts is a state from which the two programs start together |
| `Liveness.BeforeDeadline` | smart_config/user/user_main.c:420-505 | at any time the device's last handled message is at most 10 s old |
| `Liveness.FourthIsLate` | smart_config/user/user_main.c:424-447 | when a fourth message is due, the first of the three before it is more than 14 s old, or 18 s if the loop is never late |
| `Liveness.NobodyGivesUp` | main.cpp:436-438 | over every run in which nothing is late, the server never evicts the device and the device never drops the link |
| `Liveness.MarginIsNeeded` | main.cpp:626 | with any more delay there is such a run in which the server evicts the device |
| `Liveness.PatienceIsNeeded` | smart_config/user/user_main.c:424-495 | with replies any later than that there is a run in which the device drops the link although every message was handled at once |
| `Liveness.LastingIsLenient` | smart_config/user/user_main.c:420-525 | whenever the device connects, it is kept and keeps the link in all runs if and only if both bounds are kept |
| `Handwritten.TwoMembers` | main.cpp:23 | an object written with format strings denotes its two members |
| `ClientLists.ClientReads` | main.cpp:235-246 | the text of a client is the text of an object with its four fields |
| `ClientLists.BuildList` | main.cpp:222-259 | the loop over the slots writes the bound clients in order, separated by commas, and counts the enabled ones |
| `ClientLists.ListedSlots` | main.cpp:228-252 | the bound clients are exactly the enabled and bound slots, each once, in the order of their descriptors |
| `ClientLists.ReplyListsSlots` | main.cpp:222-264 | the tree that the reply parses to has one member for each of these slots, in that order and with its four fields, and the number of enabled slots |
| `ClientLists.ReplyReads` | main.cpp:260-264 | parsing the reply gives the count and the bound clients in the order of their descriptors, fields unchanged |
| `ClientLists.AnyReplyReads` | main.cpp:432 | the text of the reply to any message parses to its status and its response, null unless the list was asked for |
| `ClientLists.CountIsEnabled` | main.cpp:230-234 | the count is the number of connected clients |
| `ClientLists.Reply` | main.cpp:432 | so it is for the reply that is sent, if it fits the buffer and the listed fields need no escaping |
| `WakeOnLan.ReadAddress` | main.cpp:281-292 | six groups of two hexadecimal digits with either separator give their six bytes |
| `WakeOnLan.OrderReads` | main.cpp:296-406 | each order that the server writes with a format string parses to an object with its command and its address |
| `WakeOnLan.FillPacket` | smart_config/user/user_main.c:206-217 | the packet is six 0xFF, the address sixteen times and six zeros, 108 bytes in all |
| `DeviceCommands.GetArray` | smart_config/user/user_main.c:113-140 | the first list of that name, as many bytes as there is room for |
| `DeviceCommands.GetString` | smart_config/user/user_main.c:142-163 | the first string of that name |
| `DeviceCommands.GetBoolean` | smart_config/user/user_main.c:165-184 | whether some member of that name is true |
| `DeviceCommands.WolSend` | smart_config/user/user_main.c:186-242 | what is broadcast, nothing if the packet is refused or no socket can be opened, and no memory is kept |
| `DeviceCommands.SafeToRead` | smart_config/user/user_main.c:113-184 | of the messages that parse, exactly those are read without comparing a name that is not there that are not a list with `true` or a string in it |
| `DeviceCommands.ListOfTrue` | smart_config/user/user_main.c:172-174 | `[true]` parses and is not one of them |
| `DeviceCommands.Handle` | smart_config/user/user_main.c:511-566 | the device reacts to every such message as specified, ignores what does not parse, and keeps no memory |
| `DeviceCommands.AnswerReads` | smart_config/user/user_main.c:555-562 | the answer of the device parses to a response with the status and the key |
| `DeviceCommands.OrderOutcome` | smart_config/user/user_main.c:526-553 | what the specification makes of each order |
| `DeviceCommands.ReplyIsTaken` | smart_config/user/user_main.c:517-525 | the device takes the server's reply to a bind or a beat as an answer exactly if its status is true |
| `DeviceCommands.Obey` | smart_config/user/user_main.c:507-566 | every order that the server sends is carried out, unless memory is refused |
| `DeviceCommands.ShutdownAddress` | smart_config/user/user_main.c:267-270 | the address in a shutdown packet reads as the same six bytes |
| `DeviceCommands.Wake` | main.cpp:276-315 | from the address as it was typed to the packet on the wire |

## Left out

- Malformed escapes, unterminated strings and unterminated comments: the specifications answer `Malformed` or `Broken` and the heap parser and the in-place stripper require that it is something else, because the C code then reads past the terminator.
- IEEE rounding, `pow`, infinities and the digits that `%.0f`, `%e` and `%f` produce: numbers are exact reals, and the printed form of a non-integer is any well-formed numeral of fewer than 64 bytes.
- Overflow of `int` sizes and of `subscale`: integers are unbounded, and the buffered printer requires that its text and 64 bytes more stay below 2^30. The cast of a `double` that an `int` cannot hold gives any `int`.
- BufferedPrinter.PrintValue: takes trees whose number nodes have a `valueint` that makes no difference to their text; every tree that is parsed, constructed or set through the macros and wrappers of the repository is one, and one whose `valueint` was stored apart from its `valuedouble` may not be, because the value of a tree does not show `valueint`. The same goes for `SimplePrinter.PrintValue`.
- Duplicate.Duplicate: does not say that names flagged constant are freed when a copy fails or is deleted, because they are not.
- NodeParser.ParseNest: one method stands for `parse_array` and `parse_object`, which differ only in the key.
- SimplePrinter.PrintValue: the two tables of pointers are allocated and freed, but their contents are sequences.
- The pieces of text that the C code writes character by character are written with one copying loop.
- The allocation hooks, `cJSON_Create*`, `cJSON_AddItemToObject` and the reference constructors: they would only add members that set fields.
- The bits of `type` are fields of their own; `cJSON_False` is 0 as in the header.
- WakeOnLan.ScanSix: models `%02x` on hexadecimal digits and separators, not the blanks, signs and `0x` that `sscanf` also takes.
- DeviceCommands.Handle: requires a message that is read safely, because C leaves open what comparing with null does.
- Servers.Server.Obey: takes the command and its members as they were read from the JSON text, already cut to the 31 bytes of the local buffers; the text of the notice sent over UDP for `warn` is not modelled. The result of `send` is ignored by the source.
- Epolls.Epoll.Ctl: descriptors are below 1024 and removing a registered one succeeds.
- Sockets, `accept`, `recv` and `send`, daemonising, signals and the exit flag: one message per receive, no coalescing; `MainLoop` takes the turns it makes before the flag is raised.
- Liveness.NobodyGivesUp: supposes that the device has a key, an SSID and an address to bind with, that its sends succeed, and that its 32-bit clock does not wrap.
- ClientLists.ReplyReads: the fields of the listed slots hold no quote, backslash or NUL, which the format string does not escape.
- EndToEnd.ParsePrintParse: the printed text and 64 bytes more stay below 2^30.
- The other tasks of the device (LED, button, smart configuration, key generation), the network interface helpers, the JSON wrapper's getters and setters and the notification service.
