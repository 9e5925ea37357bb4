# Jansson and the attribute engine, modelled and proved

The project models `libjansson`, the JSON library bundled with the game, and the attribute
engine of the game itself (`libnethack/src/attrib.c`), and proves what they are meant to
guarantee.

* **Text to value and back.** A byte stream with push-back (`ByteStream`), the lexer
  (`Lexing`) and the recursive descent (`Parser`) are objects and methods with the source's
  loops and buffers. Each is proved equal to a function on the bytes still to be read
  (`Scanning`, `Parsing`), and those functions are proved to be the grammar of RFC 4627
  section 2, read in one way (`Grammar`), with the values it means (`Meaning`). The printer
  (`Printing`, `RoundTrip`, `Ordering`) writes a text of that grammar which means the dumped
  value, so that `Loading` can state the round trip in both directions for all dump flags,
  and say exactly where the parser accepts more than the RFC, where it accepts less, and when
  it aborts. The descent builds its result on the reference-counted heap (`Nodes`): a value is
  returned as a tree of new nodes with a count of one each, and a failed parse leaves the heap
  as it was.
* **Dumping a graph** (`Dumping`, `Calls`, `Texts`, `Cycles`, `Refusals`). Nodes may be shared
  or form cycles, and the sink may refuse any call. The calls made and the output left are
  those of a list of steps read off the graph, whatever the sink does and whether the dump
  succeeds or not, and the `visited` flags are all clear again afterwards. Into a sink that
  accepts everything a dump succeeds exactly when no walk from the root closes a cycle, and is
  cut short exactly when a key can be reached that is not UTF-8; when the sink refuses, a
  successful dump is complete exactly if no piece of a key was refused.
* **Hash table** (`HashTable`, `Objects`). All pairs of all buckets live on one ring of node
  objects; buckets are windows into it; rehashing relinks the same nodes. Any run refines a
  plain map, at a bounded number of relinks. Serials make key order the order of first
  insertion since the last deletion. What a run replies is also told from its history alone.
* **Value heap** (`References`, `Copying`, `Arrays`, `Values`). Reference counts equal slots
  plus references held, and nodes are released once and exactly when nothing refers to them.
  A call that replaces or removes a value goes on in freed memory exactly if the container
  hangs by that value alone, which needs a cycle and a caller who does not hold the container;
  an update does so also if the object it reads from hangs by a value that it replaces.
  Deep copies are equal and apart, arrays refine sequences, `json_equal` is equality of finite
  maps and sequences.
* **Pack and unpack** (`Packing`, `PackScanner`, `Formats`). Unpacking succeeds exactly if format
  and arguments spell a format that the value fits, and then stores what the format says; with
  the format a value was packed with it gives the arguments back; a strict object unpack has
  named every key.
* **UTF-8 and the string buffer** (`Utf8`, `StringBuffer`), following RFC 3629.
* **Attributes** (`Attributes`, `Advancement`). Bounds kept by every routine, points conserved,
  the level sums in closed form, and no run of changes of Wisdom or Constitution at a fixed
  level costs energy or hit points for good.

Spec functions stand beside the methods; a method's `ensures` ties it to the function, and the
lemmas about the function say what it is worth. `Spelling` and `Layout` say with byte values what
is loaded and dumped as what, independently of the functions that do it.

## Where code and documentation disagree

The model follows the code in each case.

* `l_isxdigit` (libjansson/load.c:39-40) lets every value pass, so any four bytes may follow
  `\u`, although the decoder assumes four hexadecimal digits (libjansson/load.c:267). Letters
  beyond `f` are given values, anything else reaches `assert(0)`. `Loading.LettersAreAccepted`
  and `Loading.OthersAbort` show both. `Loading.NeverAborts` rules the assertion out for texts
  with four letters or digits after every `\u`, `Loading.AbortsIff` says for every text of the
  grammar whether it is reached, and `Loading.AcceptedIsRfc` which accepted texts are those of
  RFC 4627.
* Not every text of RFC 4627 is loaded. Integers beyond 64 bits, reals that overflow a double,
  `\u0000` and surrogates without their partner are refused: `Loading.RfcIsAccepted` says that
  these are all, and `Loading.BigIntegerRefused`, `Loading.HugeRealRefused` and
  `Loading.EscapesRefused` give a text for each.
* A NUL that ends a number or a word is lost when it is pushed back, so a buffer with a NUL
  there is accepted (`Loading.NulIsSwallowed`).
* Whether a key could be written is not asked when an object is dumped. `Refusals.LostIff` says
  when a successful dump is complete all the same; `Refusals.KeyLost` is a dump that writes
  `{:null}` for `{"a":null}`, and `Refusals.KeyBroken` one that loses a key which is not UTF-8;
  `Refusals.CutShortIff` says when that happens.
* Replacing or removing a value drops it before the container is touched again
  (libjansson/value.c:440-441, 564-567, 581-584; libjansson/hashtable.c:125-130, 263-265). That
  can release the container itself: `References.Perform` says exactly when, and
  `References.CycleDangles` is such a call.
* `json_object_update` goes on to iterate over the other object after it has replaced a value
  (libjansson/value.c:209-212). If that value kept the other object, it is freed by then, and
  no cycle is needed: `References.UpdateDangles` updates an object with a value of its own.
* Serials are compared by a difference cut to an int (libjansson/dump.c:160-164), so that
  JSON_PRESERVE_ORDER may list a later key first (`Objects.OrderLost`).
* `json_array_remove` moves one slot more than the live tail: beyond the table exactly when the
  table is full (`Arrays.JsonArray.Remove`, `Arrays.RemoveFromFull`).
* The comment in `init_attr` (libnethack/src/attrib.c:410-419) says that points are first dealt
  up to 21 or 20 and redistributed after a cut to the racial caps; the code uses the racial
  caps in the first pass and 21 or 20 in the second, and points cut after that are not dealt
  (`Attributes.PointsLeftUndealt`).
* `adjattrib` is said to return FALSE when no change is made, but may have raised the base to
  the maximum (`Attributes.FalseButRaised`); `Attributes.FalseUnchangedIff` says when.
* The declaration of the advancement table says that an attribute of 3 gives 0 or what 4 to 6
  gives, whichever is lower; the code gives 0 (`Advancement.ThreeGivesNothing`).

## Model

| member | source | states |
|---|---|---|
| Utf8.EncodeInto | libjansson/utf.c:12-46 | writes the encoding of a code point, or fails exactly beyond U+10FFFF or below 0 |
| Utf8.EncodedBits | libjansson/utf.c:12-46 | how many bytes a code point takes, the range of each, and that their value bits are the code point (RFC 3629 section 3) |
| Utf8.CheckFull | libjansson/utf.c:84-138 | finds the code point of a whole sequence and refuses overlong, surrogate and out-of-range ones; stops at a terminator without reading on |
| Utf8.Iterate | libjansson/utf.c:140-164 | on NUL-terminated text advances over exactly one well-formed sequence and reports its code point |
| Utf8.CheckString | libjansson/utf.c:166-191 | accepts exactly the texts that split into whole sequences |
| Utf8.DecodeEncode | libjansson/utf.c:12-138 | decoding undoes encoding for every scalar value |
| Utf8.EncodeDecode | libjansson/utf.c:12-138 | encoding undoes decoding for every sequence that is accepted, and its code point is a scalar value |
| Utf8.DecodeIff | libjansson/utf.c:166-191 | accepted texts are exactly the concatenations of encodings of scalar values, each in one way |
| Utf8.Deliverable | libjansson/load.c:151-181 | a text is delivered whole exactly when it is valid UTF-8 |
| StringBuffer.StrBuffer.constructor | libjansson/strbuffer.c:19-31 | starts empty and terminated |
| StringBuffer.StrBuffer.Clear | libjansson/strbuffer.c:41-45 | empties the buffer |
| StringBuffer.StrBuffer.Duplicate | libjansson/memory.c:35-45 | a terminated copy of the text up to its first NUL |
| StringBuffer.StrBuffer.StealValue | libjansson/strbuffer.c:52-57 | hands over the terminated text and starts anew |
| StringBuffer.StrBuffer.AppendBytes | libjansson/strbuffer.c:69-101 | appends, keeping room for a terminating NUL, or changes nothing, exactly when a size would overflow |
| StringBuffer.StrBuffer.Enlarge | libjansson/strbuffer.c:81-93 | at least doubles without wrapping around and keeps the text |
| StringBuffer.StrBuffer.Pop | libjansson/strbuffer.c:103-112 | takes the last byte off |
| StringBuffer.Collect | libjansson/dump.c:402-417 | appending the pieces and duplicating the value gives their concatenation up to its first NUL, and fails only beyond SIZE_MAX / 2 bytes |
| ByteStream.Stream.constructor | libjansson/load.c:128-140 | everything up to the first invalid sequence is to be delivered |
| ByteStream.Stream.Fetch | libjansson/load.c:890-900 | delivers the buffer byte by byte, then EOF |
| ByteStream.Stream.Fill | libjansson/load.c:149-181 | refills the buffer with the next whole sequence, or enters the end or error state |
| ByteStream.Stream.Get | libjansson/load.c:142-203 | delivers the next byte, never one that equals a sentinel; position, line and column stay those of what has been consumed |
| ByteStream.Stream.Advance | libjansson/load.c:185-195 | position is bytes consumed, line one plus newlines, column code points since the last newline |
| ByteStream.Stream.Retreat | libjansson/load.c:210-216 | takes the bookkeeping back by one byte, across a newline too |
| ByteStream.Stream.Unget | libjansson/load.c:205-221 | undoes the last get exactly, except that a NUL stays consumed |
| ByteStream.Stream.Bookkeeping | libjansson/load.c:183-216 | for a source without NUL, in every reachable state: position is the number of bytes of the source handed out, line one plus the newlines among them, column the code points since the last of them |
| ByteStream.CharacterCounts | libjansson/load.c:185-195 | a character of any length moves on by one column, a newline to the next line |
| ByteStream.Sequence | libjansson/load.c:160-181 | the checks on a buffered sequence agree with those on the source even where the source ends early |
| Lexing.Lexer.constructor | libjansson/load.c:628-636 | a lexer over the bytes that can be delivered |
| Lexing.Lexer.GetSave | libjansson/load.c:234-240 | reads one byte and saves it, unless the input has ended |
| Lexing.Lexer.UngetUnsave | libjansson/load.c:247-255 | pushes the last byte back and drops it from the saved text |
| Lexing.Lexer.ReadInt | libjansson/load.c:463-478 | reads an integer part as the grammar has it |
| Lexing.Lexer.ReadFrac | libjansson/load.c:504-515 | reads a fraction, at least one digit |
| Lexing.Lexer.ReadExp | libjansson/load.c:517-530 | reads an exponent with an optional sign |
| Lexing.Lexer.ReadNumber | libjansson/load.c:452-545 | the token and the bytes left are those of the number scan; a real beyond the range of a double is an invalid token |
| Lexing.Lexer.FinishInteger | libjansson/load.c:480-502 | the token is the decimal value of the saved text if it fits 64 bits, else invalid |
| Lexing.Lexer.ReadWord | libjansson/load.c:585-604 | reads all letters and recognises, byte for byte, true, false and null, each as its own word, and nothing else |
| Lexing.Lexer.ReadEscape | libjansson/load.c:322-341 | accepts the short escapes, and any four bytes after u |
| Lexing.Lexer.ReadUnits | libjansson/load.c:301-344 | the first pass: succeeds exactly on a closed literal and saves its text |
| Lexing.DecodeUnicodeEscape | libjansson/load.c:268-289 | the value of four alphanumeric digits, or the failed assertion otherwise |
| Lexing.ReadCodePoint | libjansson/load.c:368-412 | combines surrogate pairs and refuses lone surrogates and zero |
| Lexing.PutEscape | libjansson/load.c:366-434 | the encoding of an escape is never longer than the escape |
| Lexing.DecodeLiteral | libjansson/load.c:353-440 | the second pass decodes the literal into a terminated text, staying inside the saved text and inside a target one byte longer |
| Lexing.Lexer.ReadString | libjansson/load.c:291-444 | both passes together: the token and the bytes left are those of the string scan |
| Lexing.Lexer.SkipSpaces | libjansson/load.c:558-560 | skips exactly the leading white space |
| Lexing.Lexer.Scan | libjansson/load.c:547-615 | token and bytes left are those of the scan of what lay ahead |
| Lexing.Lexer.TokenEnd | libjansson/load.c:547-615 | after a token of a source without NUL, position, line and column are those of the token's end in the source |
| Scanning.UnitsSound | libjansson/load.c:301-344 | what the first pass accepts is a literal of well-formed units, and its text is what was read |
| Scanning.UnitsComplete | libjansson/load.c:301-344 | every literal of well-formed units is accepted as itself |
| Scanning.ScanNumSound | libjansson/load.c:452-545 | an accepted number is one of RFC 4627 section 2.4 and its text is what was read |
| Scanning.ScanNumComplete | libjansson/load.c:452-545 | every such number is accepted, by longest match |
| Scanning.ScanSound | libjansson/load.c:547-615 | every token is well-formed, input gets shorter, and on NUL-free input the token's text is what was read |
| Scanning.ScanComplete | libjansson/load.c:547-615 | every lexeme of the grammar is read after any white space, as itself or as the fault that keeps load.c from storing it |
| Parsing.DocSound | libjansson/load.c:818-842 | an accepted NUL-free text is the text of a document, to its end, without repeated keys if those are rejected |
| Grammar.SynFaultless | libjansson/load.c:268-545 | a tree of the grammar that has no fault is one that load.c stores, and the other way round |
| Parsing.DocJudged | libjansson/load.c:650-842 | the text of any document of the grammar, whatever its numbers and escapes: accepted as itself if nothing is wrong with it, else the first fault decides between rejection and abort |
| Parsing.DocComplete | libjansson/load.c:818-842 | the text of every document without a fault is accepted as exactly that document |
| Parsing.ParserIsGrammar | libjansson/load.c:650-842 | on NUL-free text acceptance and being the text of a faultless document of the grammar are the same |
| Parsing.TopJudged | libjansson/load.c:818-842 | without the end-of-file check a document is read as itself, or judged by its first fault, whatever follows it |
| Parsing.PrefixIsGrammar | libjansson/load.c:818-842 | and then the NUL-free texts accepted are exactly those that start with a faultless document, read in one way |
| Parsing.ValueSound | libjansson/load.c:763-816 | a parsed value spells the bytes it took |
| Parsing.ValueComplete | libjansson/load.c:763-816 | a value's text followed by anything is read as that value, or judged by its first fault |
| Meaning.UnitsGood | libjansson/load.c:291-444 | from valid UTF-8 a literal decodes to valid UTF-8 without NUL |
| Meaning.ReadGood | libjansson/load.c:547-615 | tokens end at character boundaries |
| Meaning.DocGood | libjansson/load.c:664-770 | every string and key that reaches the nocheck constructors is valid, NUL-free UTF-8, whatever the input |
| Meaning.ValueWellFormed | libjansson/load.c:650-721 | parsed objects have distinct keys |
| Meaning.ElementsInOrder | libjansson/load.c:738-742 | a parsed array holds the values of its elements, each at its place |
| Meaning.LastMemberWins | libjansson/load.c:677-702 | under each key a parsed object holds the value of the last member with that key |
| Parser.ParseValueAt | libjansson/load.c:763-816 | a node for the value of the descent on the remaining bytes, held by the caller, new and with counts of one but for singletons; or failure with the heap as it was, or abort; it also says what is left to read |
| Parser.ParseArrayAt | libjansson/load.c:723-761 | the same for arrays, elements appended one by one, all released on failure |
| Parser.ParseMemberAt | libjansson/load.c:664-702 | the same for a key, colon and value, a repeated key found in the object |
| Parser.ParseObjectAt | libjansson/load.c:650-721 | the same for objects, repeated keys replacing the value in place and releasing what was made for it |
| Parser.ParseJson | libjansson/load.c:818-842 | the same for a whole text, or with JSON_DISABLE_EOF_CHECK for its first value |
| Parser.LoadBuffer | libjansson/load.c:902-920 | loading a buffer next to anything else on the heap parses its longest valid prefix; with the end-of-file check it fails if that is not all; whatever it returns nothing else is changed, and on failure nothing is left |
| Nodes.AppendMade | libjansson/load.c:738-742 | appending an element and dropping it leaves an array of one element more, its nodes counted once |
| Nodes.SetMade | libjansson/load.c:695-702 | setting a pair and dropping its value leaves the object with that entry set; a value replaced goes with all that was made for it, and nothing older |
| Nodes.Undo | libjansson/load.c:718-720 | dropping an unfinished container leaves the heap exactly as it was before |
| Nodes.SameCounts | libjansson/jansson.h:98-114 | counts of old nodes are what they were if new ones lead to new ones and singletons only |
| Nodes.StandsForOne | libjansson/value.c:900-928 | a node stands for one value only, serials apart |
| Escapes.UnitsReal | libjansson/load.c:324-333 | a literal's escapes are real exactly when its units have four hexadecimal digits, or four letters or digits, after every \u |
| Escapes.DocReal | libjansson/load.c:267-333 | texts with letters or digits after every \u never make the parser abort; real escapes mark the documents whose literals have them |
| Loading.LoadsTheGrammar | libjansson/load.c:818-920 | a NUL-free text is loaded exactly when it is valid UTF-8 and the text of a document, as what that means; what texts and meanings are byte for byte is said by the members of Spelling |
| Loading.LoadsAPrefix | libjansson/load.c:818-920 | with JSON_DISABLE_EOF_CHECK a NUL-free text is loaded exactly when it starts with the text of a document, even in front of invalid UTF-8 |
| Loading.AcceptedIsRfc | libjansson/load.c:39-40 | an accepted text is one of RFC 4627 exactly when it is NUL-free and its escapes are real |
| Loading.RfcIsAccepted | libjansson/load.c:268-842 | a text of RFC 4627 is accepted exactly if it is valid UTF-8, its integers fit 64 bits, its reals a double, its escapes are never \u0000 and pair their surrogates, and keys are distinct if repeated ones are rejected; it never aborts |
| Loading.GrammarJudged | libjansson/load.c:818-920 | loading any text of the grammar: invalid UTF-8 is not accepted, otherwise the first fault decides |
| Loading.UnitsStorable | libjansson/load.c:368-412 | a literal decodes exactly if no escape is zero and surrogates come in pairs, high before low |
| Loading.BigIntegerRefused | libjansson/load.c:488-495 | a 1 and twenty zeros in brackets is a text of RFC 4627 and refused |
| Loading.HugeRealRefused | libjansson/load.c:534-537 | so is the real 1e999 |
| Loading.EscapesRefused | libjansson/load.c:385-412 | so are strings of \u0000 and of a lone high surrogate |
| Loading.AbortsIff | libjansson/load.c:268-289 | a text of the grammar in valid UTF-8 aborts exactly if its first fault is a byte after \u that is neither letter nor digit; if nothing else is wrong with it, exactly if there is such a byte |
| Loading.NeverAborts | libjansson/load.c:267-289 | no text with four letters or digits after every \u reaches the assertion, whatever else it holds |
| Loading.LettersAreAccepted | libjansson/load.c:39-40 | a concrete text with letters beyond f after u that is accepted |
| Loading.OthersAbort | libjansson/load.c:275-286 | texts that reach the assertion |
| Loading.NulIsSwallowed | libjansson/load.c:205-221 | a concrete text with a NUL that is accepted |
| Loading.DumpLoads | libjansson/dump.c:166-417 | loading a dump, byte stream included, gives the same value for all dump flags: the same kinds, contents, elements and pairs |
| Loading.LoadDumpLoad | libjansson/load.c:763-770 | whatever was loaded can be dumped and loaded again without change |
| Spelling.SpaceBytes | libjansson/load.c:558-560 | white space is space, tab, newline and carriage return |
| Spelling.WordBytes | libjansson/load.c:585-604 | letters make a word exactly if they are those of true, false or null |
| Spelling.WordsLoad | libjansson/load.c:595-600 | [true], [false] and [null], byte for byte, load as arrays of just that value |
| Spelling.ShortEscapesLoad | libjansson/load.c:421-432 | what each of the eight short escapes stands for |
| Spelling.PlainBytesLoad | libjansson/load.c:342-436 | any other byte of ASCII from 0x20 on stands for itself |
| Spelling.HexEscapesLoad | libjansson/load.c:268-289 | a \u escape is the character of its number, in capital or small hexadecimal digits |
| Spelling.PairLoads | libjansson/load.c:376-388 | two escaped surrogates are one character, as RFC 2781 section 2.2 combines them |
| Spelling.OtherEscapesRefused | libjansson/load.c:322-341 | no other byte of ASCII but u may follow a backslash |
| Spelling.ControlsRefused | libjansson/load.c:308-319 | nor may one below 0x20 stand in a string |
| Spelling.IntegersLoad | libjansson/load.c:480-502 | an integer is loaded as its decimal value from -2^63 to 2^63 - 1, and refused beyond |
| Spelling.RealsLoad | libjansson/load.c:532-541 | a real is loaded with its text exactly if it is below 2^1024 - 2^970 |
| Spelling.NumbersLoad | libjansson/load.c:452-545 | [-120] and [1.5] and what they load as |
| Spelling.NumbersRefused | libjansson/load.c:463-530 | leading zeros and plus signs, and missing digits, are refused |
| Spelling.BracketsLoad | libjansson/load.c:650-761 | [] and {} load as such with any white space between and around the brackets |
| Spelling.ArrayLoads | libjansson/load.c:723-761 | [true,false] loads with its elements in order |
| Spelling.ObjectLoads | libjansson/load.c:650-721 | an object of two members loads with both, in order |
| Spelling.RepeatedKeyLoads | libjansson/load.c:677-702 | a repeated key keeps its place and takes the later value, or is refused if repeated keys are rejected |
| Printing.PrintDecodes | libjansson/dump.c:67-152 | a printed literal decodes to the string, with or without JSON_ENSURE_ASCII |
| Printing.PrintFine | libjansson/dump.c:107-143 | a printed literal is one of RFC 4627, with hexadecimal escapes |
| Printing.PrintAscii | libjansson/dump.c:92-94 | with JSON_ENSURE_ASCII a printed literal is plain ASCII |
| Printing.SplitCombines | libjansson/dump.c:128-136 | splitting into surrogates and combining them are inverse |
| Printing.DecTextValue | libjansson/dump.c:181-193 | the decimal text of an integer has its value |
| Printing.RawTextRenders | libjansson/dump.c:166-400 | a dump is the text of a syntax tree, for any indentation and separators |
| Layout.DumpLayout | libjansson/dump.c:45-65 | the white space of that tree: none with JSON_COMPACT, one space after each comma and colon without it, and with JSON_INDENT(n) a newline and n spaces for each level after opening brackets and commas and before closing ones |
| Layout.BytesPrinted | libjansson/dump.c:82-118 | without JSON_ENSURE_ASCII each byte is printed for itself: quotation mark, backslash and what is below 0x20 as the escape named, all else as it is; with the flag, ASCII texts likewise |
| Layout.BeyondPrinted | libjansson/dump.c:92-136 | with the flag a character beyond ASCII becomes its number in four small hexadecimal digits, or two surrogates |
| Layout.KeysArranged | libjansson/dump.c:293-327 | JSON_SORT_KEYS lists keys by their first differing byte and takes precedence, JSON_PRESERVE_ORDER by rising serial if these are within 2^31, and neither leaves the order of the iteration |
| Layout.ScalarsDumped | libjansson/dump.c:173-225 | null, true, false, [] and {} as dumped, byte for byte |
| Layout.ArrayDumped | libjansson/dump.c:211-258 | [1,2] as dumped, compact, with spaces and with indentation |
| Layout.ObjectDumped | libjansson/dump.c:260-394 | an object of one pair as dumped, likewise |
| RoundTrip.SynOfMeans | libjansson/dump.c:166-400 | that tree means the value that was dumped |
| RoundTrip.ArrangeKeeps | libjansson/dump.c:293-327 | putting keys in dumping order changes neither the value nor its keys |
| RoundTrip.DumpThenLoad | libjansson/dump.c:166-400 | parsing a dump succeeds and gives back the same value: the same kinds, contents, elements and pairs |
| RoundTrip.DumpGood | libjansson/dump.c:67-152 | a dump is valid, NUL-free UTF-8 |
| Ordering.KeyLessTotal | libjansson/dump.c:154-158 | strcmp orders keys totally |
| Ordering.KeyLessTransitive | libjansson/dump.c:154-158 | and transitively |
| Ordering.KeyLessParts | libjansson/dump.c:154-158 | and by the first byte in which they differ, a key before those it is a prefix of |
| Ordering.CompareSerialsExact | libjansson/dump.c:160-164 | the serial comparison is the difference exactly when that fits an int |
| Ordering.CompareSerialsWraps | libjansson/dump.c:160-164 | serials 2^31 apart compare the wrong way round |
| Ordering.SortAscends | libjansson/dump.c:313-318 | sorting by a strict total order puts the entries in that order and loses none |
| Ordering.AscendingUnique | libjansson/dump.c:313-318 | there is only one such order, however qsort finds it |
| Dumping.Sink.Write | libjansson/dump.c:29-40 | appends the piece, or refuses the call and takes nothing |
| Dumping.WriteIndent | libjansson/dump.c:45-65 | makes the calls for a newline and the indentation, for a space, or none; Layout.DumpLayout says which, by the flags |
| Dumping.EscapeOf | libjansson/dump.c:107-143 | the text of an escape |
| Dumping.SkipPlain | libjansson/dump.c:82-97 | the cursor stops at the first character to escape, at the end, or at invalid UTF-8 |
| Dumping.WriteString | libjansson/dump.c:67-152 | makes the calls of the literal, up to the first that is refused or to invalid UTF-8, and leaves what those calls have written |
| Dumping.DumpNode | libjansson/dump.c:166-400 | makes the calls of the node's steps, up to the first checked one that is refused or to a cycle, and leaves what those calls have written; the marks are as before on success, and none outside the path is set on failure |
| Dumping.DumpArray | libjansson/dump.c:211-258 | the same for the visited protocol of an array |
| Dumping.DumpObject | libjansson/dump.c:260-394 | and of an object |
| Dumping.DumpSlots | libjansson/dump.c:234-250 | the same for the loop over the elements with commas and indentation |
| Dumping.DumpPairs | libjansson/dump.c:304-386 | the same for the loop over the pairs in dumping order, the calls for a key being unchecked |
| Calls.PlayAll | libjansson/dump.c:166-400 | steps write everything exactly if the callback refuses none of their calls, and otherwise strictly less |
| Calls.PlayUnchecked | libjansson/dump.c:329-366 | if all checked calls went well, everything was written exactly if no unchecked call is refused |
| Texts.TailFlat | libjansson/dump.c:67-152 | the calls for the rest of a literal come to its escaped text and a quote exactly if that rest is valid UTF-8 |
| Texts.NodeFlat | libjansson/dump.c:166-400 | the calls for a node come to its text, if there is no cycle |
| Cycles.AcyclicIff | libjansson/dump.c:217-280 | what the flags find is exactly that some walk from the node closes a cycle |
| Cycles.NodeRight | libjansson/dump.c:166-400 | the text of a node is the dump of the tree it unfolds to, shared nodes repeated, if there is no cycle |
| Cycles.LookedUp | libjansson/dump.c:299-327 | collecting, sorting and looking keys up again orders the pairs like the entries they stand for |
| Cycles.Dump | libjansson/dump.c:438-446 | all flags are clear afterwards; result, output and number of calls are those of the root's steps, for every sink; other values than arrays and objects are refused unless asked for |
| Cycles.ReliableDump | libjansson/dump.c:438-446 | into a sink that refuses nothing success is absence of cycles, and the output then the dump of the tree |
| Refusals.LostIff | libjansson/dump.c:329-366 | after a successful dump the text is there exactly if the sink refuses no call for a piece of a key; otherwise less has been written |
| Refusals.WrittenIff | libjansson/dump.c:166-400 | a dump succeeds with its whole text exactly if the sink refuses none of the calls it takes |
| Refusals.KeyLost | libjansson/dump.c:366 | a sink that refuses one key: success, and {:null} for {"a":null} |
| Refusals.KeyBroken | libjansson/dump.c:366 | a key that is not UTF-8: success, and {":null} written |
| Refusals.CutShortIff | libjansson/dump.c:329-366 | into a sink that refuses nothing, with values that can be printed, a dump succeeds exactly when no cycle can be reached, whatever the keys; and something is cut short exactly if a walk leads to a key that is not UTF-8 |
| Refusals.CutIff | libjansson/dump.c:67-400 | if nothing is refused, a dump is cut short exactly if it would fail were every result looked at |
| Cycles.DumpString | libjansson/dump.c:402-417 | a string comes back exactly when no cycle is reachable, and it is the tree's dump |
| Values.JsonEqual | libjansson/value.c:900-928 | true exactly for values of the same kind and contents, with the same elements in order and the same values under the same keys; hence for values equal as finite maps and sequences |
| Values.ForgetTells | libjansson/value.c:900-928 | what equality as maps and sequences comes to for each pair of kinds: never across kinds; for scalars equal contents; for arrays length and elements; for objects keys and the values under each |
| Values.SameIsForget | libjansson/value.c:900-928 | being the same in that sense and being equal as maps and sequences coincide |
| Values.SetStores | libjansson/value.c:122-157 | setting a key replaces its value in place or appends it with the new serial, and moves nothing else |
| Values.SetGets | libjansson/value.c:105-157 | a get after a set finds the value, and under other keys what was there |
| Values.ArrayEqual | libjansson/value.c:610-630 | elementwise equality |
| Values.ObjectEqual | libjansson/value.c:288-312 | same size and inclusion one way are equality of the maps |
| HashTable.ListInsert | libjansson/hashtable.c:26-32 | links a node in front of another one |
| HashTable.ListRemove | libjansson/hashtable.c:34-38 | unlinks a node from the ring |
| HashTable.HashTable.Init | libjansson/hashtable.c:209-235 | an empty table |
| HashTable.HashTable.InsertToBucket | libjansson/hashtable.c:45-58 | the node enters the ring at the front of its bucket's window, and all windows stay contiguous and disjoint |
| HashTable.HashTable.FindPair | libjansson/hashtable.c:73-96 | finds the pair of a key exactly if the key is present |
| HashTable.HashTable.Get | libjansson/hashtable.c:285-299 | the value in the map |
| HashTable.HashTable.Set | libjansson/hashtable.c:243-283 | the key now has the value, under its old stored key if it was present; every other text keeps its slot; the replaced value and the new key are freed; one rehash at most |
| HashTable.HashTable.Rehash | libjansson/hashtable.c:152-184 | the same nodes in windows for the new modulus, each relinked once, as counted |
| HashTable.HashTable.RelinkAll | libjansson/hashtable.c:173-181 | walking the old ring while relinking reaches every node |
| HashTable.HashTable.Del | libjansson/hashtable.c:99-133 | removes and frees a present pair, else changes nothing |
| HashTable.HashTable.Clear | libjansson/hashtable.c:307-321 | frees every pair once and empties the table |
| HashTable.HashTable.Iter | libjansson/hashtable.c:323-326 | the first pair |
| HashTable.HashTable.IterNext | libjansson/hashtable.c:344-350 | the next pair of the ring |
| HashTable.HashTable.IterAt | libjansson/hashtable.c:328-342 | the pair of a key |
| HashTable.HashTable.IterSet | libjansson/hashtable.c:364-372 | replaces the value of the pair iterated over |
| HashTable.HashTable.Collect | libjansson/hashtable.c:323-350 | a whole iteration lists every live pair exactly once |
| HashTable.PrimesGrow | libjansson/hashtable.c:60-65 | each prime is at least one and a half times the one before, up to the end of the table |
| HashTable.Run | libjansson/hashtable.c:45-321 | any run from an empty table that never sets a key while there are as many pairs as the last prime replies as its history says: a get with the value of the last set of the text that has not been deleted or cleared since, a deletion with whether there is one; at most three relinks an insert |
| HashTable.RunAnswers | libjansson/hashtable.c:243-321 | the same for the plain map that runs beside the table |
| HashTable.RunRemembers | libjansson/hashtable.c:243-321 | after any run a text is present exactly if its last set has not been undone, with the value of that set and the key of the first one since it was absent |
| Objects.JsonObject.Set | libjansson/value.c:122-157 | the key now has the value, every other key what it had; the next serial goes to a new key, a present key keeps its own |
| Objects.JsonObject.Del | libjansson/value.c:170-179 | removes a key |
| Objects.JsonObject.Clear | libjansson/value.c:181-192 | removes all keys and keeps counting |
| Objects.RunOrdered | libjansson/value.c:147-156 | over any run live serials are distinct, below the counter, and in order of first insertion since the last deletion |
| Objects.PreservesOrder | libjansson/dump.c:315-327 | JSON_PRESERVE_ORDER lists keys in that order as long as no two live serials are 2^31 apart |
| Objects.OrderLost | libjansson/dump.c:160-164 | a key set 2^31 + 1 times before another one is listed after it |
| Objects.SortsKeys | libjansson/dump.c:313-318 | JSON_SORT_KEYS lists keys strictly ascending |
| Objects.JsonObject.DumpOrder | libjansson/dump.c:283-386 | collecting the keys from the table and sorting them lists each once: ascending, by insertion, or as the table has them |
| Arrays.JsonArray.Get | libjansson/value.c:407-418 | the element, or none out of range |
| Arrays.JsonArray.Set | libjansson/value.c:420-444 | replaces an element in range |
| Arrays.JsonArray.Grow | libjansson/value.c:459-486 | makes room, at least doubling, with the old table still to copy from if asked |
| Arrays.JsonArray.PushBack | libjansson/value.c:488-511 | appends; what growth has copied stays below the table's size |
| Arrays.JsonArray.Insert | libjansson/value.c:513-551 | inserts, on both growth paths |
| Arrays.JsonArray.Remove | libjansson/value.c:553-570 | removes; the extra slot moved lies beyond the table exactly when it is full |
| Arrays.RemoveFromFull | libjansson/value.c:553-570 | eight appends and a remove: the move reaches beyond the table |
| Arrays.InsertIs | libjansson/value.c:513-551 | an insertion takes any index up to the length, and what was from there on moves up by one |
| Arrays.RemoveIs | libjansson/value.c:553-570 | a removal takes any index below the length, and what came after moves down by one |
| Arrays.SetIs | libjansson/value.c:420-444 | a replacement takes any index below the length and changes no other element |
| Arrays.ExtendIs | libjansson/value.c:488-608 | what is appended comes after all there was |
| Arrays.JsonArray.Extend | libjansson/value.c:588-608 | appends another array, or itself |
| Arrays.Run | libjansson/value.c:420-608 | any run of operations is that run on a sequence |
| Arrays.AppendAll | libjansson/value.c:459-511 | appending alone copies fewer than two elements for each appended |
| References.Memory.New | libjansson/value.c:73-92 | a node that never was, with one reference |
| References.Memory.Incref | libjansson/jansson.h:98-104 | one more reference; singletons do not change |
| References.Memory.Decref | libjansson/jansson.h:109-114 | one reference less; the node is released exactly when it was the last, and then what it referred to loses one each |
| References.Memory.DropAll | libjansson/value.c:388-397 | a released container drops each of its slots |
| References.Memory.Replace | libjansson/value.c:440-443 | drops some slots of a container, then stores the new ones and conserves every count; goes on in freed memory exactly if the container hangs by what was dropped |
| References.Memory.TakeOut | libjansson/value.c:563-567 | dropping slots releases the container exactly if it hangs by them |
| References.Memory.Store | libjansson/value.c:440-443 | storing slots takes over the references handed in |
| References.Memory.ArraySetNew | libjansson/value.c:420-444 | steals the reference on success and drops it on failure; dangles exactly if the array hangs by the replaced element |
| References.Memory.ArrayAppendNew | libjansson/value.c:488-511 | likewise for appending |
| References.Memory.ArrayInsertNew | libjansson/value.c:513-551 | likewise for inserting |
| References.Memory.ArrayRemove | libjansson/value.c:553-570 | drops the removed element's reference; dangles exactly if the array hangs by it |
| References.Memory.Clear | libjansson/value.c:572-586 | drops all; dangles exactly if the container hangs by its own values |
| References.Memory.ArrayExtend | libjansson/value.c:588-608 | one more reference to each element, with itself as well |
| References.Memory.ObjectSetNew | libjansson/value.c:122-157 | steals the reference, drops the replaced value's; dangles exactly if the object hangs by it |
| References.Memory.IterSetNew | libjansson/value.c:275-286 | replaces in place; fails without taking the reference over; dangles exactly if the object hangs by the old value |
| References.Memory.ObjectDel | libjansson/value.c:170-179 | drops the deleted value's reference; dangles exactly if the object hangs by it |
| References.Memory.ObjectSet | libjansson/jansson.h:153-157 | the wrapper leaves the caller's references as they were |
| References.Memory.ArrayAppend | libjansson/jansson.h:180-184 | the wrapper leaves the caller's references as they were |
| References.Memory.ObjectUpdate | libjansson/value.c:194-216 | sets every pair of the other object, itself included, up to the first whose value is the object itself, at which it fails; goes on in freed memory exactly if one of the two hangs by a value that a pair come to replaces |
| References.SetSlotHolds | libjansson/value.c:122-157 | after a set the key refers to the new node alone and every other key to what it did |
| References.UpdatedHolds | libjansson/value.c:194-216 | after an update a key refers to what the last pair with it does |
| References.UpdatedElsewhere | libjansson/value.c:194-216 | and a key that no pair has to what it did before |
| References.Released | libjansson/value.c:877-895 | nothing refers to a node whose last reference goes, and its slots become references to drop |
| References.LiveIffReferenced | libjansson/jansson.h:98-114 | a node is live exactly as long as a slot or the caller refers to it, and its count is their number |
| References.Perform | libjansson/value.c:388-608 | every legal call keeps counts conserved and releases unique, and goes on in freed memory exactly if the container, or the object an update reads from, hangs by the values that the call takes out |
| References.DoomIff | libjansson/value.c:388-397 | a container is released by dropping its slots exactly if it hangs by them: neither it nor what refers to it is held, ranked along the slots |
| References.NoWayBack | libjansson/value.c:440-441 | it is not if no walk leads back to it from what is dropped |
| References.HeldCallsAreSafe | libjansson/value.c:194-586 | nor if the caller holds it: no call on a held container dangles, for an update if the other object is held too |
| References.CycleDangles | libjansson/value.c:420-444 | two arrays that contain each other and are held by no one: replacing an element dangles |
| References.UpdateDangles | libjansson/value.c:194-216 | a held object without any cycle, updated with a value of its own that the update replaces: it dangles |
| References.UpdateWithoutWay | libjansson/value.c:194-216 | an update goes well if no walk leads from a value under a key of the other object to either of the two |
| References.SelfUpdateIsSafe | libjansson/value.c:194-216 | an object may be updated with itself |
| References.ShedsFromStart | libjansson/value.c:194-216 | what a turn of the update releases is what hangs when told from the heap at the start |
| Copying.DeepCopy | libjansson/value.c:959-986 | an equal structure that shares no node with the source except singletons, which is left as it was |
| Copying.CopyContainer | libjansson/value.c:339-362 | the same for the loops over elements and pairs |
| Copying.CopyIsEqual | libjansson/value.c:959-986 | original and copy stand for the same value, hence the copy is json_equal |
| Packing.CountDecides | libjansson/pack_unpack.c:229-233 | counting the named keys tells whether all were named, even if some were named twice |
| Packing.StrictNamesAll | libjansson/pack_unpack.c:295-302 | a strict object unpack succeeds only if every key was named |
| Packing.ValueBack | libjansson/pack_unpack.c:171-490 | unpacking with the same tokens gives the arguments of a packed value back |
| Packing.PackUnpack | libjansson/pack_unpack.c:492-586 | pack then unpack with one format succeeds, strictly or not, and returns the arguments, booleans normalised |
| Packing.TokenPacks | libjansson/pack_unpack.c:171-220 | what each token makes of its argument, and which arguments fail |
| Packing.PassedOver | libjansson/pack_unpack.c:50-71 | spaces, tabs, newlines, commas and colons are passed over wherever they are, and nothing else is |
| Formats.TokenUnpacks | libjansson/pack_unpack.c:375-490 | for any value each token stores the content of a value of its kind and refuses all others |
| Formats.ShapeUnpacks | libjansson/pack_unpack.c:224-490 | with the tokens and arguments of a format, unpacking succeeds exactly if the value fits it: the kind for each token, enough elements, all keys, and nothing beyond where that is asked for; it then stores what the format says, and is refused otherwise |
| Formats.FormatDecides | libjansson/pack_unpack.c:550-586 | the same for a whole format |
| Formats.UnpackIff | libjansson/pack_unpack.c:224-586 | whatever the format and arguments, unpacking succeeds exactly if they spell a format that the value fits |
| PackScanner.Scanner.NextToken | libjansson/pack_unpack.c:50-71 | the next character that is not ignored; never called past the terminator |
| PackScanner.PackNode | libjansson/pack_unpack.c:171-220 | builds what the format and arguments say, the scanner within the format on every path |
| PackScanner.PackArray | libjansson/pack_unpack.c:140-169 | the same for arrays |
| PackScanner.PackObject | libjansson/pack_unpack.c:89-138 | the same for objects |
| PackScanner.PackFormat | libjansson/pack_unpack.c:492-524 | the same for a whole format, with nothing left over |
| PackScanner.UnpackNode | libjansson/pack_unpack.c:375-490 | stores what module Packing says for the tokens, which Formats.ShapeUnpacks tells apart from it; the scanner within the format on every path |
| PackScanner.UnpackArray | libjansson/pack_unpack.c:311-373 | the same for arrays, with the strictness marks |
| PackScanner.UnpackObject | libjansson/pack_unpack.c:224-309 | the same for objects, with the set of named keys |
| PackScanner.UnpackFormat | libjansson/pack_unpack.c:550-586 | the same for a whole format; for a value without repeated keys success exactly if format and arguments spell a format that the value fits |
| Attributes.You.AdjAttrib | libnethack/src/attrib.c:31-103 | changes one attribute as specified and no other |
| Attributes.AdjustIs | libnethack/src/attrib.c:31-103 | while the sum fits a char: bounds kept, base moved within minimum and cap, maximum following |
| Attributes.AdjustKeepsBounds | libnethack/src/attrib.c:63-94 | bounds are kept exactly when the sum has not wrapped to the wrong side |
| Attributes.AdjustWraps | libnethack/src/attrib.c:63 | a change that wraps around |
| Attributes.FalseButRaised | libnethack/src/attrib.c:48-54 | FALSE although the base was raised |
| Attributes.FalseUnchangedIff | libnethack/src/attrib.c:47-54 | FALSE means unchanged exactly unless a gain meets a maximum at its cap that is reached already, over a base below the cap |
| Attributes.You.LoseStr | libnethack/src/attrib.c:127-165 | strength stops at 3, each point spared costs six hit points, bounds kept |
| Attributes.You.Exercise | libnethack/src/attrib.c:234-259 | accumulated exercise stays within 50 |
| Attributes.You.ExerChk | libnethack/src/attrib.c:325-396 | each attribute is put to the test as specified, the exercise left is halved; bounds and exercise are kept |
| Attributes.TriedIs | libnethack/src/attrib.c:345-368 | abuse takes a point from value and maximum together unless the value is at the minimum, exercise adds one below the cap; exactly when accumulated exercise is reset |
| Attributes.TriesIff | libnethack/src/attrib.c:345-358 | strength, wisdom, dexterity and constitution below 18 are tested: wisdom if the roll is within what has accumulated, the others within two thirds of it |
| Attributes.You.InitAttr | libnethack/src/attrib.c:399-455 | bases and maxima are those of two passes with their own rolls, within the racial bounds |
| Attributes.DealOutIs | libnethack/src/attrib.c:423-445 | a pass ends, loses no point, exceeds no limit, and leaves points only after a hundred rolls in a row on full attributes |
| Attributes.DealtWhereRolled | libnethack/src/attrib.c:423-445 | each attribute gains a point for each roll that falls on it, until it is full |
| Attributes.PlaceIs | libnethack/src/attrib.c:428-431 | and a roll falls on it exactly if the shares up to it, but not those before, add up to the roll |
| Attributes.DealTwiceIs | libnethack/src/attrib.c:404-454 | every point is dealt or left over; points are left only after a hundred rolls in vain or when the second pass exceeded a racial cap |
| Attributes.PointsLeftUndealt | libnethack/src/attrib.c:404-454 | a role and rolls for which three points cut by the racial cap are dealt to no one |
| Attributes.You.Run | libnethack/src/attrib.c:31-479 | over any run of these routines attributes keep their bounds and exercise stays within 50 |
| Attributes.You.RedistAttr | libnethack/src/attrib.c:457-479 | rescaling by the ratio of maxima keeps the bounds |
| Attributes.Pick | libnethack/src/attrib.c:426-431 | a roll falls on the specified attribute |
| Attributes.PickedIs | libnethack/src/attrib.c:428-431 | which is the first at which the shares add up to the roll, and there always is one |
| Advancement.GetAdvMod | libnethack/src/attrib.c:603-649 | the truncated difference of two multiples that the loop computes, for the modifier of the band of the attribute |
| Advancement.AdvModIs | libnethack/src/attrib.c:603-649 | what a level gives: the modifier from 10 to 19, the difference of two multiples of one and a half below and of a half above, each cut to a char |
| Advancement.BandIs | libnethack/src/attrib.c:613-628 | the range of attribute values of each band |
| Advancement.GetAdvModTotal | libnethack/src/attrib.c:559-578 | the sum over the levels |
| Advancement.ClosedForm | libnethack/src/attrib.c:560-649 | that sum in closed form for every attribute and table, modulo 256 in general and exactly for modifiers that fit: telescoping below level 10, linear to 19, telescoping above |
| Advancement.ClosedFormIff | libnethack/src/attrib.c:560-649 | the closed form is exact at every level for exactly the tables whose initial value fits a char and whose modifier is between -85 and 84 |
| Advancement.EvenModifier | libnethack/src/attrib.c:559-649 | what the totals are for a modifier of 2k: 3k at each level up to 9, 2k up to 19, k from 20 on |
| Advancement.GainIsCut | libnethack/src/attrib.c:603-649 | a modifier for which a level's gain is cut to a char |
| Advancement.ThreeGivesNothing | libnethack/src/attrib.c:603-649 | an attribute of 3 gives 0, which is the lower of 0 and what 4 gives exactly if that is not negative |
| Advancement.Mon.UpdateHpEnAttrib | libnethack/src/attrib.c:506-555 | maxima move by the change of the total, clamped; current values only fall; the first call only remembers |
| Advancement.NewMaxIs | libnethack/src/attrib.c:512-550 | a maximum that moves is the larger of its floor and the sum |
| Advancement.NeverLost | libnethack/src/attrib.c:528-554 | over any run of changes at a fixed level, energy beyond the total for Wisdom and hit points beyond that for Constitution never decrease, and are constant exactly when the clamp is not hit |
| Advancement.Follow | libnethack/src/attrib.c:506-555 | calling update_hpen_attrib for a run of values gives the maxima of that run |
| Advancement.BackAgain | libnethack/src/attrib.c:528-554 | boosting an attribute and losing the boost gains exactly when the floor was hit |

## Left out

- Real numbers are kept as the text of their lexeme; whether one overflows a double is modelled, but `jsonp_dtostr`, which prints 17 digits, and equality of doubles are not.
- Error messages and positions in them, `error.c`, and `lex_save_cached`, which only feeds a message after the parse has failed.
- Allocation failure, and `memory.c` apart from `jsonp_strdup`; allocation is taken to succeed.
- `json_loads` is `json_loadb` on the text before the first NUL; files and streams of the C library are not modelled.
- Parser.ParseValueAt: an object's pairs are an ordered list on the heap, not a hash table, whose ring order a rehash may change; the round trip is proved for objects in every entry order.
- Lexing.Lexer.GetSave: keeps the saved text as a byte sequence; `StringBuffer` shows that the buffer behind it is one.
- Dumping.Sink.Write: a callback that refuses a piece takes nothing of it; what a file or a callback of the caller keeps of a refused piece is not modelled.
- Refusals.LostIff: for graphs whose strings are valid; for keys that are not, `Refusals.CutShortIff` speaks of sinks that refuse nothing.
- Ordering.SortAscends: `qsort` is one sorting function; it matters only where the comparison is no order, for serials 2^31 or more apart.
- HashTable.HashTable.Set: asks that the prime table is not exhausted by the rehash, as the C code reads past it otherwise; `HashTable.Run` asks the same of each set of a run.
- References.Memory.Replace: what the source does once it goes on in freed memory is not modelled; the pointer that it leaves in the container while the value behind it is dropped is taken out first, which only a release of the container could tell apart.
- References.Memory.New: counts are unbounded, so a count that reaches the marker of a singleton is not modelled, nor are addresses used again.
- References.Memory.ObjectUpdate: pairs come in the order of a list; an object updated with itself may rehash on the way and visit its pairs in another order, which changes nothing. Iteration of the caller interleaved with sets is left out.
- Copying.DeepCopy: on acyclic heaps, as the source does not end on others; `json_copy` is not modelled.
- Packing.PackUnpack: nodes passed with `o` and `O` are left out of the round trip, and converting an integer to double for `F` is kept symbolic; line and column of the scanner only feed messages.
- Attributes.You.LoseStr: death and rehumanising, which the loop may trigger.
- Attributes.You.AdjAttrib: what `acurr` returns, fixed abilities and the dunce cap are parameters; messages and encumbrance are left out, as are `gainstr`, luck, temporary losses and alignment.
- Attributes.You.ExerChk: the hunger and encumbrance checks before the test are calls of `exercise`.
