# Verified models of a systems-programming course repository

Six components of the repository carry hard, self-contained logic. Each is modelled here in
Dafny, in the form its C code has, and its central promises are proved for all inputs, all runs
or all interleavings.

- **The JSON library** (`MP4/cJSON.c`). `JsonText` is RFC 8259 by itself: which texts are JSON and
  what each of them means. `JsonTree` and `JsonGrammar` say what the program prints and parses;
  `ParseMeaning` proves that every JSON text is parsed as what it means, `ParseRefusal` what is
  accepted beyond that and what is refused, `RoundTrip` and `PrintLayout` what is printed and that
  it is parsed back. `ParseBuffer` and `PrintBuffer` are the parser and printer over their buffers
  and over linked nodes, and `PrintParse` puts them together. `NodeList`, `NodeTree` and `NodeBuild`
  are the doubly linked nodes, `TreeCompare` and `TreeEquality` what comparing them means. `Minify`,
  `MinifyMeaning` and `MinifyPieces` treat the in-place minifier.
- **Streaming MD5** (`MP1/md5sum.c`). `Md5` is RFC 1321 as functions, `Md5Sum` the program; `Md5Sine`,
  `Md5Words` and `Md5Vector` pin the functions to the standard's constants, word operations and a
  digest of its test suite.
- **The commit record** (`MP1/MP1.c`). `CommitRecord` says what a history of commits leaves in the
  record file; `Lines` and `RecordText` say where its lines are when names hold newlines;
  `CommitSections` says what status and commit show, file by file; `CommitScan`, `Commits`,
  `RecordLog` and `CommitLog` are the program, and `LogMeaning` what log prints.
- **The treasure hunt** (`MP3/client/miner.c`, `MP3/server/boss.c`). `TestSet` is the counter
  and the shares, `Treasure` the protocol over pipes, `TreasureDelivery` what becomes of its
  messages, `DigestZeros` what the zeros of a digest are.
- **The thread pool** (`MP5/src/thread.c`). `ThreadPool`, a state machine whose steps each touch
  one shared word; `PoolDispatch`, when a call is refused and which worker gets its task.
- **The chat server** (`MP4/server.c`). `ChatServer`, `ChatDelivery` for who receives what, and
  `LineFraming` for its messages.

`HashTable` adds the chained hash table and its iterator (`MP5/src/hash.c`). `Bytes`, `Decimal`
and `Wrappers` are shared.

Conventions. A byte is an integer from 0 to 255 and a text a sequence of bytes; a text the
parser reads carries its NUL. Texts handed out as C strings end at their first NUL. A class
models an object whose fields the code updates in place; its methods say their whole new state
as a function of the old one. The MD5 digest in the treasure hunt, the file digests in the
commit record and the filter functions of the chat server are parameters.

## Findings

The code departs from what its callers may expect in these places; each has a proved statement of
when it does.

- `collect_old_list` reads the last commit's (name, MD5) pairs back exactly when every one of its
  names is a single word (`CommitScan.PairsReadBackIff`; on the record of any history, names with
  newlines included, `Commits.OldListIff`). A blank in one name spoils the others: of the files
  `c` and `d e` five tokens are read, and the clean name `c` is stored before the first place
  (`CommitScan.BlankSpoilsOthers`, `CommitScan.FillPairs`).
- A line of a name that begins with `# commit` is taken for a header. On the record of any history
  the log is right for every number of commits asked for exactly when no line of any name is one
  (`RecordLog.LogIff`). In a run in which every commit could be read back for the next one, it is
  right for every number exactly when the log of the newest commit is, and that is exactly when no
  line of a name of the last commit is a header (`RecordLog.NewestPrintedIff`).
  `RecordLog.HeaderNames` has the inputs: a file `# commit x`, and a file named `x` and `# commit 9`
  with a newline in between.
- A commit that only deletes files is never recorded (`CommitRecord.ChangedIff`).
- `is_finished` reads the busy flags one after the other. Its answer 1 covers every call accepted
  before its first read (`ThreadPool.FinishedMeansExecuted`) and no later one:
  `ThreadPool.AnswerTooEarly` is a run in which run_task has returned 1, is_finished answers 1, and
  the task has not been executed.
- `cJSON_Minify` reads on behind the terminator exactly when a string or a block comment is not
  closed (`Minify.MinifyInPlace`; a lone quote and a lone comment opening in
  `Minify.UnclosedTexts`).
- `cJSON_Compare` is not reflexive on objects with repeated keys
  (`TreeCompare.DuplicateKeysBreakReflexivity`); it decides equality exactly on trees where
  equal keys have equal values (`TreeCompare.CompareDecidesEquality`).
- The length counter of `md5` is 32 bits wide, so the padding is RFC 1321's exactly when the low
  61 bits of the length are below 2^32 (`Md5.PaddingIsStandard`); at 2^32 bytes the program pads as
  if the message were empty (`Md5.PaddingWraps`).
- `process_json_format` fits its allocation exactly when the text has two newlines
  (`LineFraming.ProcessJsonFormat`). The empty object and values printed on one line have fewer
  (`LineFraming.MessageFits`); `MP4/server.c` never passes it one, because everything it frames is
  an object with a `cmd` member.
- `del_from_hash` on the first node of a chain removes the whole chain: it removes exactly its code
  if and only if the code does not head a longer chain (`HashTable.Table.Del`), and
  `HashTable.DeleteLosesOther` loses code 1 by deleting 0 from a table of one bucket.
- Nesting of exactly `CJSON_NESTING_LIMIT` is printed and parsed back; deeper trees are printed
  and then refused (`RoundTrip.PrintThenParse`, at both sides of the limit in
  `RoundTrip.NestedAtLimit`).
- `verify` reads past the digest exactly when the target exceeds its digits (`Treasure.Verify`). In a
  run that is so exactly for a miner at work on target 33, which is the target exactly after a mine
  with an all-zero digest has been accepted (`Treasure.TargetPastIff`; such a run in
  `Treasure.ReadsPastDigest`).
- A candidate with a NUL in it is tried as the part before the NUL, so as itself exactly when it
  holds none (`Treasure.TriedAsItself`).
- The header of `cJSON_PrintPreallocated` asks for five spare bytes; the text and two bytes, and
  for a number one, are always enough (`PrintBuffer.PrintPreallocated`).

## Model

| member | source | states |
|---|---|---|
| ParseMeaning.ValueParses | MP4/cJSON.c:1203-1598 | Every value written by the grammar of sections 3 to 7 of RFC 8259, with any gaps, before a byte no number can run into, is read as what it means if it is not nested too deeply, and refused otherwise |
| ParseMeaning.TextParses | MP4/cJSON.c:993-1070 | So is every whole text, with gaps at both ends and with or without a byte order mark |
| ParseMeaning.DenotedParses | MP4/cJSON.c:1203-1598 | The same for any text that denotes a value, whichever way it is written |
| ParseMeaning.StringParses | MP4/cJSON.c:533-817 | A string in any mixture of plain bytes, the eight short escapes, code units in either letter case and surrogate pairs is read as the UTF-8 bytes it stands for |
| ParseMeaning.NumberParses | MP4/cJSON.c:259-333 | A number of at most 63 bytes, with fraction and power, is read to its end as the number it is |
| ParseMeaning.StrtodReads | MP4/cJSON.c:259-333 | strtod consumes every JSON number and returns its exact decimal value |
| ParseRefusal.ValueTaken | MP4/cJSON.c:1203-1598 | Whatever is accepted consists of the tokens of the value returned, with every comma, colon, bracket and brace in its place and only blanks and control characters between them; a number's value is that of its digits, point and power |
| ParseRefusal.TextTaken | MP4/cJSON.c:993-1070 | An accepted text is a mark, a gap and those tokens; with require_null_terminated only a gap follows |
| ParseRefusal.StringRefused | MP4/cJSON.c:580-817 | An unknown escape, half a surrogate pair or a missing end makes a string fail |
| RoundTrip.RenderDenotes | MP4/cJSON.c:1258-1712 | What is printed is a JSON text that denotes the tree, in any layout of JSON's own blanks |
| PrintLayout.PrintArranged | MP4/cJSON.c:820-1712 | Unformatted text has no gaps at all, formatted text exactly one line and its tabs for each member, a tab behind each colon and a blank behind each comma of an array; only what must be escaped is, in its short form where there is one |
| RoundTrip.PrintThenParse | MP4/cJSON.c:993-1712 | A printed tree, in any layout of blanks and with blanks behind it, parses back to the tree with nothing left but the NUL, if its nesting is at most the limit, and is refused otherwise |
| RoundTrip.ParseRendered | MP4/cJSON.c:1203-1598 | The same inside a text, at any depth and before any continuation that does not run on into a number |
| RoundTrip.ParseQuoted | MP4/cJSON.c:691-939 | A quoted and escaped NUL-free string parses back to itself, whatever follows |
| RoundTrip.ParsePrintedNumber | MP4/cJSON.c:259-333 | A printed integer parses back to its value |
| RoundTrip.ParsedValueShape | MP4/cJSON.c:1203-1598 | What the parser returns has C strings only and respects the nesting limit, so it can be printed again |
| RoundTrip.ReprintKeepsTree | MP4/cJSON.c:993-1712 | Any accepted text, reprinted in any layout, stands for the same tree |
| RoundTrip.NestedAtLimit | MP4/cJSON.c:1336-1350 | A tree nested 1000 deep is read back, one of 1001 is refused |
| PrintParse.PrintThenRead | MP4/cJSON.c:993-1151 | The printer's block for a valid node, read as a C string by the parser, becomes new nodes that spell the same tree; printing fails exactly for want of room, parsing exactly for nesting |
| PrintParse.ReadThenCompare | MP4/cJSON.c:993-2744 | A node printed, parsed back and compared with what was read is equal to it exactly when the text fits and its tree is consistent |
| Decimal.DigitsRoundTrip | MP4/cJSON.c:467-530 | The digits of a number denote it |
| JsonSuffix.ValueRemains | MP4/cJSON.c:1203-1427 | The parser never goes back: what it leaves is a proper suffix of what it got, NUL included, despite the step back before each element |
| JsonSuffix.QuoteLocal | MP4/cJSON.c:691-740 | Where a string closes depends only on the bytes up to there |
| JsonSuffix.DecodeLocal | MP4/cJSON.c:745-817 | What a string decodes to depends only on the bytes up to its closing quote |
| ParseBuffer.StepFits | MP4/cJSON.c:777-806 | One decoding step, in or out of step with the scan, writes no more than the bytes it consumes less the escapes counted there |
| ParseBuffer.EscapesApart | MP4/cJSON.c:705-721 | The escapes counted up to two positions differ by no more than the bytes between them allow |
| ParseBuffer.DecodedFits | MP4/cJSON.c:705-817 | The size estimate of parse_string is a true bound for every content, invalid escapes included |
| ParseBuffer.ScanString | MP4/cJSON.c:705-728 | The first pass finds the closing quote, if there is one, and counts the escapes before it |
| ParseBuffer.DecodeInto | MP4/cJSON.c:745-817 | The second pass fills the block of the estimated size with the decoded string, or fails where an escape is invalid |
| ParseBuffer.StoreUtf8 | MP4/cJSON.c:640-684 | The bytes written from the last to the first are the UTF-8 encoding |
| ParseBuffer.Parser.SkipWhitespace | MP4/cJSON.c:956-974 | Leaves the offset at the first byte that is no blank, or at the last byte |
| ParseBuffer.Parser.ParseNumberText | MP4/cJSON.c:259-333 | Reads the longest run of number bytes, at most 63, as strtod does, and moves on by what strtod consumed |
| ParseBuffer.Parser.ParseStringText | MP4/cJSON.c:691-817 | Returns the decoded string and moves behind the closing quote, or fails |
| ParseBuffer.Parser.ParseAny | MP4/cJSON.c:1203-1255 | parse_value over the buffer: the item, with new nodes linked below it, spells exactly the meaning of the unread text, and the depth is restored |
| ParseBuffer.Parser.ParseLiteral | MP4/cJSON.c:1211-1231 | The three literals, each found exactly when it is there |
| ParseBuffer.Parser.NextElement | MP4/cJSON.c:1370-1400 | Each element gets a new node, linked behind the ones before, which stay valid and share nothing with it |
| ParseBuffer.Parser.ParseElements | MP4/cJSON.c:1368-1402 | The do-while loop over elements, entered after a step back, builds the doubly linked list of nodes that spell them in order |
| ParseBuffer.Parser.ParseArray | MP4/cJSON.c:1336-1427 | parse_array, with the nesting check and the empty array: the item becomes a valid node with the list below it |
| ParseBuffer.Parser.ParseKey | MP4/cJSON.c:1536-1565 | A member's key and its colon |
| ParseBuffer.Parser.ParsePair | MP4/cJSON.c:1545-1573 | One member: its node gets the name and the value |
| ParseBuffer.Parser.NextMember | MP4/cJSON.c:1524-1573 | Each member gets a new node, linked behind the ones before, which stay valid and share nothing with it |
| ParseBuffer.Parser.ParsePairs | MP4/cJSON.c:1522-1573 | The do-while loop over members builds the doubly linked list of nodes that spell them in order |
| ParseBuffer.Parser.ParseObject | MP4/cJSON.c:1492-1598 | parse_object, with the nesting check and the empty object: the item becomes a valid node with the list below it |
| ParseBuffer.Parser.SkipByteOrderMark | MP4/cJSON.c:977-990 | Skips a byte order mark at the start if at least five bytes are there |
| ParseBuffer.ParseText | MP4/cJSON.c:993-1070 | cJSON_ParseWithOpts over the buffer succeeds exactly when the text has a value, and returns it |
| PrintBuffer.Printer.Ensure | MP4/cJSON.c:366-451 | Succeeds exactly when the room asked for fits the fixed buffer, or INT_MAX; keeps what is printed; never replaces a fixed buffer |
| PrintBuffer.Printer.UpdateOffset | MP4/cJSON.c:454-464 | Moves the offset behind the text printed last |
| PrintBuffer.Printer.PrintString | MP4/cJSON.c:820-939 | Leaves the quoted string behind what was printed; succeeds exactly when it and two bytes fit |
| PrintBuffer.CountEscapes | MP4/cJSON.c:843-870 | The first pass counts exactly the bytes that escaping adds |
| PrintBuffer.StoreEscape | MP4/cJSON.c:893-933 | One byte is written as itself, as a letter escape or as a code point, as escaping demands |
| PrintBuffer.StoreQuoted | MP4/cJSON.c:877-939 | The copying pass writes the quoted string and its NUL and nothing in front of it |
| PrintBuffer.Printer.PrintNumber | MP4/cJSON.c:467-530 | Leaves the digits of an integer |
| PrintBuffer.Printer.PrintValue | MP4/cJSON.c:1258-1333 | Of a valid node, leaves exactly the rendered tree, whatever the buffer's size and growth; succeeds exactly when it and its slack fit |
| PrintBuffer.Printer.PrintArray | MP4/cJSON.c:1430-1489 | The same for array nodes |
| PrintBuffer.Printer.PrintElements | MP4/cJSON.c:1450-1478 | The walk along the list leaves the elements in order with their separators |
| PrintBuffer.Printer.PrintMembers | MP4/cJSON.c:1627-1690 | The walk along the list leaves the members in order with indentation, key, colon, value and separator |
| PrintBuffer.Printer.PrintObject | MP4/cJSON.c:1601-1712 | The same for object nodes |
| PrintBuffer.Print | MP4/cJSON.c:1080-1151 | Leaves the rendered tree of a valid node and a NUL; succeeds exactly when there is a node and text and slack are within INT_MAX |
| PrintBuffer.PrintBuffered | MP4/cJSON.c:1153-1181 | The same from any start size; a negative size is refused |
| PrintBuffer.PrintPreallocated | MP4/cJSON.c:1183-1200 | Succeeds exactly when there is a node and the text and its slack fit the length given, and then leaves exactly the text and a NUL |
| Minify.MinifyInPlace | MP4/cJSON.c:2451-2519 | On any C string: the read position leaves the text exactly when a string or block comment is not closed; otherwise the write position never passes it and the minified text is left; nothing behind the text is written |
| Minify.UnclosedTexts | MP4/cJSON.c:2486-2510 | A lone quote and a lone comment opening are not closed |
| Minify.CopyString | MP4/cJSON.c:2496-2510 | A string literal is moved unchanged, escaped quotes included; the text is left exactly when there is no closing quote |
| Minify.PassSkipped | MP4/cJSON.c:2457-2495 | Blanks and both kinds of comment are passed over and write nothing |
| Minify.PassCopied | MP4/cJSON.c:2496-2515 | Everything else is copied once |
| MinifyMeaning.MinifyKeepsTree | MP4/cJSON.c:2451-2519 | A text accepted with require_null_terminated still parses to the same tree when minified, and minifying it again changes nothing |
| MinifyMeaning.ValueKept | MP4/cJSON.c:2451-2519 | The same for every value inside a text |
| MinifyMeaning.SqueezeTwice | MP4/cJSON.c:2451-2519 | A second pass changes nothing |
| MinifyPieces.PiecesMinified | MP4/cJSON.c:2451-2519 | Of a text cut into blanks, both kinds of comment, string literals and other bytes, exactly the string literals and the other bytes are left, in order |
| MinifyPieces.TextHasPieces | MP4/cJSON.c:2451-2519 | Every C string that the pass does not run out of can be cut so |
| LineFraming.ProcessJsonFormat | MP4/server.c:39-51 | The result fits the buffer exactly when the text has two newlines, and is then the text less its newlines with one newline behind it |
| LineFraming.MessageKeepsTree | MP4/server.c:39-51 | The framed message has exactly one newline, at its end, and still parses to the tree |
| LineFraming.MessageFits | MP4/server.c:39-51 | The message fits its allocation exactly when the printed text breaks two lines, as every object with a member does and the empty object does not |
| TreeEquality.CompareMeansAlike | MP4/cJSON.c:2621-2744 | On trees with distinct keys comparison is true exactly for equal scalars, arrays equal element by element, and objects whose members have partners with the same key and an equal value, both ways and in any order |
| TreeEquality.KeyMeans | MP4/cJSON.c:90-110 | Two keys are taken for the same exactly when they have one length and each two bytes are equal or, if case does not matter, the small and capital form of one letter |
| TreeCompare.CompareDecidesEquality | MP4/cJSON.c:2621-2744 | Comparison is true exactly for trees that are equal with objects read as maps and in which equal keys have equal values |
| TreeCompare.CompareOnDistinctKeys | MP4/cJSON.c:2621-2744 | On trees with distinct keys comparison is equality with objects read as maps |
| TreeCompare.CompareIsEquivalence | MP4/cJSON.c:2621-2744 | Comparison is symmetric and transitive, and reflexive exactly on consistent trees |
| TreeCompare.DuplicateKeysBreakReflexivity | MP4/cJSON.c:2699-2735 | An object with a repeated key and two values is not equal to a copy of itself |
| TreeCompare.DistinctKeysConsistent | MP4/cJSON.c:2699-2735 | Distinct keys make a tree consistent |
| TreeCompare.LookupCanonical | MP4/cJSON.c:1767-1793 | The first member that matches is the one the map holds |
| NodeList.AddItem | MP4/cJSON.c:1840-1865 | Appends to the child list |
| NodeList.DetachItem | MP4/cJSON.c:1926-1954 | Removes one child, which comes out unlinked |
| NodeList.DetachItemAt | MP4/cJSON.c:1956-1964 | Removes the child at an index, or nothing |
| NodeList.InsertItem | MP4/cJSON.c:1996-2023 | Inserts at an index, behind the list if there is no such index, and not at all for a negative one |
| NodeList.ReplaceItem | MP4/cJSON.c:2025-2058 | Puts one node in the place of another, which comes out unlinked |
| NodeList.GetArrayItem | MP4/cJSON.c:1738-1755 | The child at an index, or null |
| NodeList.LinkedUnique | MP4/cJSON.c:1811-1815 | The links determine the child sequence |
| NodeList.DetachThenInsert | MP4/cJSON.c:1926-2023 | Inserting a detached child where it was restores the list |
| NodeTree.Duplicate | MP4/cJSON.c:2372-2449 | The copy spells the same tree and shares no node with anything; without recursion it is the root alone |
| NodeTree.CompareNodes | MP4/cJSON.c:2621-2744 | Comparison of nodes is comparison of what they spell, for nodes that share nothing and for nodes of which one spells a consistent tree |
| NodeTree.CompareObjects | MP4/cJSON.c:2699-2735 | One direction of the comparison of objects |
| NodeTree.GetObjectItem | MP4/cJSON.c:1767-1793 | The first child whose name matches |
| NodeTree.DuplicateThenCompare | MP4/cJSON.c:2372-2744 | A recursive copy compares equal to its original exactly when the original is consistent, as it is when its keys are distinct |
| NodeBuild.Extend | MP4/cJSON.c:1370-1391 | A new node is linked behind the last one of a list under construction, and what is there stays as it is |
| NodeBuild.Fill | MP4/cJSON.c:1409-1415 | The list becomes the children of a node, which is then valid and spells the array or object of their trees |
| Md5Vector.AlphabetDigest | MP1/md5sum.c:80-237 | The digest of the 26 small letters is c3fcd3d76192e4007dfb496cca67e13b, as section A.5 of RFC 1321 has it |
| Md5Sine.TableIsSine | MP1/md5sum.c:2-75 | The constant of row i is the integer part of 2^32 times the sine of i + 1 radians without its sign: for any numbers between the 17th and 18th partial sums of the series of sine and cosine at 1, and the angles the addition theorems give from them |
| Md5Words.TruthTables | MP1/md5sum.c:165-181 | F, G, H and I of section 3.4, bit by bit |
| Md5Words.RotateRound1 | MP1/md5sum.c:182-182 | Each bit moves up by the shift amount and comes back in at the other end, for the amounts of round 1 |
| Md5Words.RotateRound2 | MP1/md5sum.c:182-182 | The same for round 2 |
| Md5Words.RotateRound3 | MP1/md5sum.c:182-182 | The same for round 3 |
| Md5Words.RotateRound4 | MP1/md5sum.c:182-182 | The same for round 4 |
| Md5Words.InitialBytes | MP1/md5sum.c:128-131 | The first state is the bytes 01 23 45 67 89 ab cd ef fe dc ba 98 76 54 32 10 of section 3.3 |
| DigestZeros.HexAt | MP1/md5sum.c:103-106 | Each byte of the digest is spelled by two digits, the high one first |
| DigestZeros.ZerosAreDigits | MP3/client/miner.c:33-39 | The zeros the hunt counts are the zero digits the digest starts with |
| Md5.TurnIsOperation | MP1/md5sum.c:165-191 | One turn with its rotation of variables is one operation of section 3.4 of RFC 1321 on the register it names |
| Md5.TableRows | MP1/md5sum.c:2-75 | The table's indices and shifts are those of the four rounds |
| Md5.NextRegister | MP1/md5sum.c:185-191 | The rotation of variables brings the next register to the front |
| Md5.FoldJoin | MP1/md5sum.c:157-197 | Digesting a text of whole blocks and then another is digesting both |
| Md5.LengthField | MP1/md5sum.c:150-153 | The two words written behind the padding are the length in bits, low byte first |
| Md5.LengthFieldDecides | MP1/md5sum.c:135-155 | Two padded messages agree exactly when their length fields do |
| Md5.PaddingIsStandard | MP1/md5sum.c:133-155 | The program pads as RFC 1321 does exactly when the low 61 bits of the length are below 2^32, and below 2^32 bytes its digest is the MD5 digest |
| Md5.PaddingWraps | MP1/md5sum.c:133-155 | A message of 2^32 bytes is padded with length 0, unlike the standard |
| Md5Sum.PadInPlace | MP1/md5sum.c:135-153 | The bytes written behind the message are its padding, and nothing else changes |
| Md5Sum.DigestBlock | MP1/md5sum.c:157-197 | One round of the block loop is the compression function |
| Md5Sum.DigestBlocks | MP1/md5sum.c:157-197 | The block loop digests the blocks in order |
| Md5Sum.Md5Call | MP1/md5sum.c:114-206 | A call on whole blocks goes on; a call on any other length, or none, pads, finishes and returns the digest |
| Md5Sum.LastPiece | MP1/md5sum.c:92-102 | The last piece, padded on its own, ends the padded whole: its trailer is digested though it is not counted |
| Md5Sum.Stream.Fread | MP1/md5sum.c:93-96 | A read returns any positive number of bytes up to the one asked for, or none at the end |
| Md5Sum.Sum | MP1/md5sum.c:80-112 | However short reads split the content, the result is the hexadecimal digest of the whole |
| TestSet.NextRank | MP3/client/miner.c:61-65 | The counter raises the rank, shorter strings first, by exactly one |
| TestSet.VisitedOnce | MP3/client/miner.c:16-65 | Each string of a share is visited at exactly one step |
| TestSet.RankUnrank | MP3/client/miner.c:16-65 | Every rank has a string |
| TestSet.UnrankRank | MP3/client/miner.c:16-65 | And every string of the share has a rank of its own |
| TestSet.ShorterFirst | MP3/client/miner.c:61-65 | Shorter strings are visited first |
| TestSet.SharesPartition | MP3/client/miner.c:172-172 | A byte lies in the share of exactly one miner |
| TestSet.ShareBounds | MP3/client/miner.c:172-172 | With at most 256 miners no share is empty or goes beyond 255 |
| TestSet.EveryStringOnce | MP3/client/miner.c:16-65 | The miners' counters together reach every non-empty string exactly once; which of them are tried as themselves is TriedAsItself |
| TestSet.EarlierByte | MP3/client/miner.c:40-65 | Candidates of one length come in the order of the first byte in which they differ |
| TestSet.SharesInOrder | MP3/client/miner.c:172-172 | The shares follow one another from 0 to 256 and differ in size by one at most |
| TestSet.Counter.constructor | MP3/client/miner.c:16-20 | The counter starts at the one-byte string of the lower bound |
| TestSet.Counter.Add | MP3/client/miner.c:40-60 | The recursive increment in the array, carry included |
| TestSet.Counter.Step | MP3/client/miner.c:61-65 | One step of the counter in its array |
| Treasure.Verify | MP3/client/miner.c:33-39 | True exactly when the digest has just so many leading zeros; it reads past the digest exactly when more are asked for than it has digits |
| Treasure.TargetPastIff | MP3/client/miner.c:33-39 | With digests of 32 digits, in every run the target exceeds 32 exactly when a mine with an all-zero digest has been accepted, and a miner's next comparison reads past the digest it compares exactly when its job is for that target |
| Treasure.ReadsPastDigest | MP3/client/miner.c:33-39 | With a digest of nothing but zeros, a run after which the next comparison reads past the digest |
| Treasure.CurrentTreasure | MP3/server/boss.c:81-91 | One more than the leading zeros, and 32 for a digest of zeros only |
| Treasure.Boss.constructor | MP3/server/boss.c:149-161 | The first target and the first jobs |
| Treasure.Boss.GiveJobs | MP3/server/boss.c:44-58 | Every miner's pipe gets the job with its own share |
| Treasure.Boss.Tell | MP3/server/boss.c:234-243 | Every miner's pipe gets the announcement |
| Treasure.Boss.Handle | MP3/server/boss.c:231-248 | A reply for the current target ends it and hands out the next jobs; any other changes nothing |
| Treasure.Digger.Read | MP3/client/miner.c:125-170 | What each command does to a miner |
| Treasure.Digger.TryOne | MP3/client/miner.c:171-212 | One candidate: reported and the work ended, or counted on |
| Treasure.StepKeeps | MP3/client/miner.c:121-213 | Every step of boss and miners keeps the invariant that every job and reply in flight belongs to the mine its target was handed out with |
| Treasure.ChainSafety | MP3/server/boss.c:216-249 | In every run the targets accepted are consecutive and once each, every accepted mine extends the one before it and has its zeros, and the target is one more than the zeros of the mine, an all-zero first digest aside |
| Treasure.ChainGrows | MP3/server/boss.c:216-249 | Each accepted mine is strictly longer than the one before it, an all-zero first digest aside |
| Treasure.MinersSkipNothing | MP3/client/miner.c:171-212 | In every run a working miner holds the candidate that its count of tries leads to, and has tried in vain every candidate of its share that precedes it |
| Treasure.TriedAsItself | MP3/client/miner.c:172-180 | A candidate is appended to the mine as it is exactly when it holds no NUL |
| Treasure.StaleReplyDropped | MP3/server/boss.c:231-231 | A reply for another target is read and changes nothing, and is always for a target already accepted |
| TreasureDelivery.EveryMinerIsTold | MP3/server/boss.c:216-249 | In every run each miner's pipe carries the first job and then, for each accepted reply, its announcement and the job for the next target in the new mine, and no other job or announcement |
| TreasureDelivery.WorksOnLastJob | MP3/client/miner.c:121-213 | In every run a miner works exactly when the last job, announcement or quit it has read is a job that it has not reported a find for, and then on that job |
| TreasureDelivery.NoFindIsLost | MP3/server/boss.c:231-248 | In every run each reply the boss has read is for a target that has been passed: it was accepted, or came after one that was |
| TreasureDelivery.QuitEndsWork | MP3/client/miner.c:155-170 | After the boss has quit, a miner that has read its pipe empty does not work |
| ThreadPool.StepKeeps | MP5/src/thread.c:23-119 | Every step of any thread keeps the invariant of locks, busy flags and arguments |
| ThreadPool.TasksRunOnce | MP5/src/thread.c:48-119 | In every interleaving a task whose run_task returned 1 is executed once with its own argument, or waits in exactly one worker with its argument intact; one whose run_task returned 0 is nowhere |
| ThreadPool.Conservation | MP5/src/thread.c:48-119 | At every moment accepted tasks are those in flight and those done, with no task in both |
| ThreadPool.FinishedMeansExecuted | MP5/src/thread.c:121-127 | In every interleaving, when is_finished, reading one flag after the other, answers 1, every call accepted before its first read has had its task executed once with its argument |
| ThreadPool.AnswerTooEarly | MP5/src/thread.c:121-127 | A run in which run_task has returned 1, is_finished then answers 1, and the task has not been executed |
| ThreadPool.IdleMeansExecuted | MP5/src/thread.c:121-127 | With no worker busy at one moment every accepted task has been executed |
| ThreadPool.ArgumentUntouched | MP5/src/thread.c:48-52 | No step of any thread writes the argument of a task in flight |
| ThreadPool.DispatchExclusive | MP5/src/thread.c:94-119 | No two calls hand out workers at the same time |
| ThreadPool.LaunchedCanStart | MP5/src/thread.c:54-64 | The worker that holds an accepted task not yet executed can take its next step: it starts reading, reads its argument's next word, or runs the task with it |
| PoolDispatch.RefusedMeansBusy | MP5/src/thread.c:94-119 | In every run a call that returned 0 had found, while it held the dispatch lock, each worker busy; a task in a worker got there because the call had found that worker idle and every one of a lower number busy |
| PoolDispatch.IdleWorkerAccepts | MP5/src/thread.c:94-119 | In every run a call that never read some worker's flag as busy has not returned 0, and once it has returned its task has been accepted |
| PoolDispatch.CallAlone | MP5/src/thread.c:94-119 | A call that runs alone hands its task to the idle worker of the lowest number and returns 1, or returns 0 and starts nothing if all are busy |
| PoolDispatch.WorkerAlone | MP5/src/thread.c:48-64 | A worker that was handed a task, left alone, executes it with its own argument and is then idle |
| PoolDispatch.StartAlone | MP5/src/thread.c:48-57 | A new worker is idle after two steps of its own |
| PoolDispatch.CheckAlone | MP5/src/thread.c:121-127 | is_finished, running alone, answers 1 exactly when no flag is busy |
| PoolDispatch.UnfinishedMeansBusy | MP5/src/thread.c:121-127 | In every run is_finished answers 0 only after it has read a busy flag |
| ChatServer.RunKeeps | MP4/server.c:143-282 | In every reachable state chatting is a symmetric pairing, data is stored exactly for who waits or chats, nobody does both, and no two waiting users accept each other |
| ChatServer.PairingSymmetric | MP4/server.c:232-236 | Who chats has a connected partner that chats back, and both were told each other's data |
| ChatServer.RunLog | MP4/server.c:143-282 | In every run the messages follow the state diagram, tell every connected user its true state, and each two match announcements are answered by one other_side_quit unless the chat goes on |
| ChatDelivery.MessagesDelivered | MP4/server.c:258-267 | In every run, by the messages alone: of two who chat, each has received since they met exactly what the other has said since, in order; and a receive_message only ever goes to somebody who chats |
| ChatDelivery.SaidOnce | MP4/server.c:258-267 | In every run what is said is echoed, reaches the partner if there is one, and nobody else |
| ChatDelivery.MatchesRespectFilters | MP4/server.c:203-236 | In every run users who chat pass each other's filters, and of two who wait one does not pass the other's |
| ChatDelivery.LowestMatched | MP4/server.c:203-256 | In every run who asks for a match gets the lowest waiting descriptor with which both filters agree, and waits if there is none |
| ChatServer.MatchingKeeps | MP4/server.c:179-256 | try_match keeps the invariant, because the search looks at every waiting user |
| ChatServer.Server.Search | MP4/server.c:203-229 | The lowest waiting user with whom both filters agree, or none |
| ChatServer.Server.HandleTryMatch | MP4/server.c:179-256 | The arrays and messages after try_match |
| ChatServer.Server.HandleSay | MP4/server.c:258-267 | The echo, and the message to the current partner only |
| ChatServer.Server.HandleQuit | MP4/server.c:268-282 | The arrays and messages after quit |
| ChatServer.Server.HandleClose | MP4/server.c:143-162 | The arrays and messages after a closed connection |
| CommitScan.ScanSums | MP1/MP1.c:112-147 | The backward scan collects the lines behind the last "(MD5)", last line first, and stops at its newline |
| CommitScan.FillPairs | MP1/MP1.c:148-158 | For any text, the tokens fill the lists in pairs from the last place; a fault exactly when a token is left over for a place before the first or a name has no digest |
| CommitScan.ScanHeader | MP1/MP1.c:163-194 | The scan goes on to the nearest header before the list and returns its number; the garbled line it starts with neither hides a header nor makes one |
| CommitScan.PairsReadBackIff | MP1/MP1.c:148-158 | For any files with a name and a digest, the tokens of the collected lines are the recorded pairs exactly when every name is one word |
| CommitScan.BlankSpoilsOthers | MP1/MP1.c:148-158 | A blank in one name makes the clean name of another file the fifth of five tokens for two files |
| Lines.ReverseInPlace | MP1/MP1.c:127-132 | The swaps reverse the line |
| Commits.OldListIff | MP1/MP1.c:112-158 | On the record of any history the last commit's files are read back exactly when every name of it is one word |
| Commits.CollectOldList | MP1/MP1.c:112-194 | On any record the program has written: the files the last digest lines are read as, or a fault, and the number of the nearest header before them |
| Commits.OldNumberOf | MP1/MP1.c:163-194 | If the last names are single words and no name before puts a header into the sections, that number is the last commit's |
| Commits.CompareFile | MP1/MP1.c:206-244 | A file is modified, unchanged, a copy of the first file with its digest, or new |
| Commits.CurrentStatus | MP1/MP1.c:195-246 | The sections are the classification of all files, in order, and show each file where it belongs |
| Commits.CommitFirst | MP1/MP1.c:284-308 | The first commit writes block 1, or nothing in an empty directory |
| Commits.Commit | MP1/MP1.c:282-336 | On any record the program has written: one more block against what was read back, the same record when nothing is new, modified or copied or when reading faults |
| Commits.CommitKeeps | MP1/MP1.c:282-336 | Whatever the names, a commit changes nothing already recorded and leaves a record the program can work on |
| Commits.CommitExtends | MP1/MP1.c:282-336 | While the last commit can be read back, the record of a history becomes the record of the extended history |
| Commits.RunRecordsHistory | MP1/MP1.c:282-336 | Over every run of commits, the record is that of the history if the names of all directory states but the last are single words |
| CommitSections.SectionsShow | MP1/MP1.c:206-246 | The modified, copied and new lines are, in directory order, one for each file whose name the last commit has first with another digest; one `source => name` for each whose name it lacks and whose digest its file `source` has first; one for each of which it has neither |
| CommitSections.OneSection | MP1/MP1.c:206-246 | A file is in one section at most, and in none exactly when the first file of its name has its digest |
| CommitSections.NameListed | MP1/MP1.c:206-246 | With every name once, a name is among the modified or the new lines exactly when its file belongs there |
| CommitSections.BlockMeans | MP1/MP1.c:319-331 | A block is its header, the three sections so filled under their titles, and every file with its digest |
| CommitSections.RecordSays | MP1/MP1.c:319-331 | The last block of the record of any history is that block, byte for byte, against the commit before |
| CommitLog.CommitEach | MP1/MP1.c:282-336 | A run of commits of any directory states, step by step |
| CommitLog.Repository.CommitAll | MP1/MP1.c:282-336 | commit on the directory's record, for any names; a record that follows its history goes on following it while the last names are single words |
| CommitLog.Repository.Status | MP1/MP1.c:259-281 | status prints the classification against the files read back, which on a faithful record with single words in it are those of the last commit |
| CommitLog.Repository.PrintLog | MP1/MP1.c:337-383 | log prints the stretches of the last k headers; on a faithful record whose last names hold no header line these are the last min(k, N) commits, newest first |
| CommitRecord.ChangedIff | MP1/MP1.c:315-318 | A commit is recorded exactly when some file with its digest was not in the last one |
| CommitRecord.HistoryRecorded | MP1/MP1.c:282-336 | No recorded commit is empty, each brings a file its predecessor did not have, and the last one has every file of the last snapshot |
| CommitRecord.NumberRead | MP1/MP1.c:178-183 | The number of a header line is read back |
| RecordText.TailQuiet | MP1/MP1.c:319-331 | Behind its header, a block has no line that looks like one if no name of it or of the commit before has, and only if no name of it has |
| RecordText.HeaderDecided | MP1/MP1.c:176-180 | What the program writes behind a name makes no line a header and hides none |
| RecordText.RecordTextEnds | MP1/MP1.c:319-331 | A record ends in the digest lines of its last commit, behind a line "(MD5)", whatever the names |
| RecordLog.GetLog | MP1/MP1.c:337-383 | The backward scan prints the stretches from the last k headers, newest first, each in its own order |
| RecordLog.LogIff | MP1/MP1.c:337-383 | On the record of any history, log prints the last min(k, N) blocks, one empty line between two, for every k, exactly when no line of any name is a header |
| LogMeaning.LogSays | MP1/MP1.c:337-383 | While no line of a name is a header, log k prints the last min(k, N) commits, newest first, each with its number, its sections and its digests, and an empty line between two |
| RecordLog.NewestPrintedIff | MP1/MP1.c:337-383 | In every run whose commits could be read back for the next one, log is right for every k exactly when log 1 is, and exactly when no line of a name of the last commit is a header |
| RecordLog.HeaderPrinted | MP1/MP1.c:350-372 | If the last file's name ends in a header line, log 1 prints the last line of the record alone |
| RecordLog.HeaderNames | MP1/MP1.c:350-372 | Two first commits of one file for which log 1 goes wrong |
| HashTable.BucketIsResidue | MP5/src/hash.c:21-24 | The bucket is the code's residue, for negative codes too |
| HashTable.SameBucket | MP5/src/hash.c:21-24 | Two codes share a bucket exactly when they differ by a multiple of the size |
| HashTable.Table.Get | MP5/src/hash.c:58-75 | The value the map holds, or none |
| HashTable.Table.Put | MP5/src/hash.c:19-56 | Succeeds exactly when the code is absent, and then adds it at the end of its chain and changes nothing else |
| HashTable.Table.Del | MP5/src/hash.c:101-126 | Removes the code, and the whole bucket with it when it is the first node; other buckets stay; exactly the code is removed if and only if it does not head a longer chain |
| HashTable.HeadTakesOthers | MP5/src/hash.c:112-118 | On any table, a code that heads its chain has others behind it exactly when another code of its bucket has a value |
| HashTable.DeleteLosesOther | MP5/src/hash.c:112-118 | In a table of one bucket, deleting 0 loses 1 |
| HashTable.Cursor.constructor | MP5/src/hash.c:162-177 | The iterator starts with every entry to come |
| HashTable.Cursor.Add | MP5/src/hash.c:179-199 | A step leaves exactly the current entry behind |
| HashTable.EntriesAreTheMap | MP5/src/hash.c:162-199 | The entries to come are the map: every code with a value appears once, with its value |

## Left out

- Numbers that are no integers below 10^15: how printf writes them and how strtod rounds. strtod
  is modelled on exact decimal values, printing on integers of magnitude below 10^15.
- The integer field valueint, locale-dependent decimal points, and the position kept for error
  reports.
- Allocation failure, memory hooks, raw items, reference items and constant keys.
- The double -0.0, which printf writes as "-0" where the real 0.0 is written "0".
- PrintBuffer.Printer.PrintNumber: integers of magnitude below 10^15 only.
- RoundTrip.ReprintKeepsTree: of texts whose numbers are integers of magnitude below 10^15.
- ParseBuffer.ParseText: a failed parse deletes the nodes made so far; freeing is not modelled.
- Minify.MinifyInPlace: what happens once the read position has left the text.
- LineFraming.ProcessJsonFormat: printing a buffer into itself is read as appending.
- NodeTree.CompareNodes: promises nothing of two nodes that share a node below when both spell
  inconsistent trees, beyond that a node is equal to itself.
- NodeList.DetachItem: requires the item to be a child of the parent, as the code relies on.
- Md5Sum.EncodeWord: encode is one method in the source; here it is one for words of the digest and
  EncodeCount for those of the length, which are counted in integers.
- Md5Sum.Sum: a failing read counts as the end of the file, and the null start state is null.
- TestSet.Counter.Step: says nothing of a string longer than the array, which the code overruns.
- Treasure.ChainSafety: one boss from start to quit, at most 256 miners, mines without NUL and
  shorter than PATH_MAX; the dump command and what is printed are not modelled.
- ThreadPool.TasksRunOnce: steps are functions on the pool's state, not methods that run; the
  unlock of a lock that is free is taken to do nothing; fairness of the scheduler, and so that a
  task is executed in the end, is not claimed.
- ChatServer.Server.HandleTryMatch: the filter is a function of the two users' data; compiling and
  loading it, sockets, select, several messages in one read, and descriptors beyond the arrays are
  not modelled.
- ChatServer.RunKeeps: assumes that no client asks for a match while it chats, as
  MP4/MP4.html:199-205 demands; that waiting users are served in order of arrival is not true of
  the code.
- Commits.CollectOldList: fixed buffers are taken to be large enough, and the header test is the
  prefix test it is meant to be. A place of the lists that stays unset is an empty text, and a header
  without a number right behind one blank has the number 0; the program writes neither when names
  are single words.
- Commits.RunRecordsHistory: what later commits record once names that are no single words have been
  committed is only what Commits.Commit says.
- ParseRefusal.ValueTaken: says nothing of the bytes of a string with escapes JSON does not allow, such
  as digits of \u that are none; ParseBuffer.ParseStringText gives them.
- ThreadPool.IdleMeansExecuted: takes all flags at one moment; the reads of is_finished are the
  subject of FinishedMeansExecuted.
- HashTable.Table.Put: a failing allocation is not modelled; init_hash on an initialised table, the
  lookup by path and the freeing functions are left out.
- HashTable.Cursor.constructor: on an empty table the code leaves the node unset; here it is null.
- The file synchronisation client and server, inotify, the port register, MP2's copy of the hash
  table, and the web front ends: mostly input and output.
