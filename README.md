# malCREPL in Dafny

malCREPL is a C read-eval-print loop. It compiles a C source file in memory,
then reads lines such as `add 2 3`. For each line it:

- looks the function up in the compiled module;
- turns the literal arguments into typed call arguments;
- guesses the return type from the declaration text in the source;
- calls the function through libffi and prints the result.

Lines that start with `:` are built-in commands: `:quit`, `:help`, `:info`,
`:list`, `:reload`. The project also models:

- `enclib.h`, the optional source obfuscation: XOR with a key, Base85, XOR
  with the inverted key, Base64;
- `netlib.h`, the URL test and the download buffer;
- `crepl.c`, the first, minimal version of the loop.

The model follows the C code function by function:

- **Loops become methods.** A loop that scans, copies or compacts text is a
  `method` with a `while` loop. Each is proved equal to a declarative
  function, and the properties the program relies on are lemmas about that
  function.
- **Updated state becomes a class.** A structure the C code updates in place
  is a class:
  - the per-line arena (`MemoryArena.Arena`);
  - the `da_append` arrays (`DynamicArray.DynArray`);
  - the Ctrl+C state (`Interrupt.CtrlC`);
  - the download buffer (`NetLib.MemoryBuffer`);
  - the two sessions (`Session.Repl`, `MinimalRepl.Minimal`).
- **Arrays stay arrays.** In-place array code keeps its `array`: the Base64
  and Base85 buffers, the XOR layers, `slice` and the signature compaction.
- **Collaborators become parameters.**
  - `stb_c_lexer.h` is a function from a line to its tokens.
  - The compiled module is the set of names it resolves.
  - libffi is an `Executor` value with three functions: whether the call
    can be prepared, the bytes the call writes, and the memory a returned
    pointer points into.
  - The clock is the parameter `now`.
  - In netlib.h, each allocation's success is a boolean parameter.

Behaviour of the C code worth knowing:

- **Listing functions.** `list_functions` (`:list`) does not remove
  duplicates. It shows a function once per occurrence of its name in the
  source (`Catalog.ListedPerOccurrence`). Only `get_function_names` removes
  duplicates (`Catalog.NamesOncePerName`).
- **End of input.** In the readline build, end of input does not end the
  session: the loop goes on (`Session.EndOfInputByBuild`). Only the fgets
  build leaves the loop.
- **Lookup order.** The function name is looked up before any argument is
  parsed. An unknown name is reported even when the arguments are invalid
  (`Session.CallPath`).
- **Arena reset.** The arena and the argument counts are reset at the top
  of every turn, blank lines and commands included, and not only for
  accepted lines.
- **Obfuscation round trip.** The obfuscation is not always reversible:
  - Base85 decoding fails on every `z` group, because its output bound
    leaves too little room;
  - a partial last group comes back zero-padded (`Base85.RoundTripPadded`,
    `Obfuscation.DecryptEncryptedPadded`).

## Model

| member | source | states |
|---|---|---|
| StringView.FromCString | malcrepl.c:155-157 | the view covers exactly the characters of the C string |
| StringView.Trim | malcrepl.c:159-168 | the trimmed view stays on the same buffer and shows Trimmed of the input text |
| StringView.TrimmedIsCore | malcrepl.c:159-168 | sv_trim leaves the part of the text between a leading and a trailing run of whitespace, and only whitespace is removed |
| StringView.TrimmedEdges | malcrepl.c:159-168 | a non-empty trimmed text neither starts nor ends with whitespace |
| StringView.TrimmedBlank | malcrepl.c:159-168 | a text trims to nothing exactly when every character is whitespace |
| StringView.TrimmedTwice | malcrepl.c:159-168 | trimming is idempotent |
| StringView.MemcmpZeroIffEqual | malcrepl.c:170-172 | memcmp over n characters is 0 exactly when the first n characters agree |
| StringView.Equal | malcrepl.c:170-172 | sv_eq holds exactly when the two views show the same text |
| DynamicArray.Grown | malcrepl.c:123-136 | the new capacity is larger than the old one, and a capacity reached by doubling from 8 stays one |
| DynamicArray.CapacityAfterBounds | malcrepl.c:123-136 | after n appends from empty, the capacity holds all n items and is less than twice n (or 8) |
| DynamicArray.DynArray.constructor | malcrepl.c:1217-1218 | a `= {0}` array holds nothing and has no storage |
| DynamicArray.DynArray.Append | malcrepl.c:123-136 | the item is added at the end, and the capacity grows to Grown exactly when the array was full |
| DynamicArray.DynArray.Clear | malcrepl.c:1233-1234 | resetting the count forgets the items and keeps the capacity |
| MemoryArena.Arena.constructor | malcrepl.c:187 | a new arena has no blocks |
| MemoryArena.Arena.Reset | malcrepl.c:189-198 | after arena_reset the arena has no blocks |
| MemoryArena.Arena.Alloc | malcrepl.c:200-224 | size 0 gives NULL and no block; otherwise a fresh zero-filled block of that size is put in front of the others |
| MemoryArena.Arena.Strdup | malcrepl.c:226-233 | the copy is a new block holding the string and its terminator |
| FfiTypes.Int32Of | malcrepl.c:449 | `(int)` of a long is the 32-bit two's complement value congruent to it |
| FfiTypes.Int8Of | malcrepl.c:484 | `(char)` of an int is the signed 8-bit value congruent to it |
| CallArgs.RunEnd | malcrepl.c:433-437 | the suffix scan stops at the first character outside the digit run, or at the end |
| CallArgs.ScanRun | malcrepl.c:491-495 | the scan loop stops where RunEnd says |
| CallArgs.ArgumentOf | malcrepl.c:430-516 | a token is rejected exactly when it is an identifier, an unsupported token or a '...' string that is not one character; an accepted argument's type tag matches its value |
| CallArgs.Classify | malcrepl.c:430-516 | the switch on the token kind and the suffix scans pick ArgumentOf of the token |
| CallArgs.Push | malcrepl.c:440-486 | the type and the value are appended to their arrays, and the arena gains the blocks for the value |
| CallArgs.AcceptedInOrder | malcrepl.c:429-519 | the accepted arguments are those of the tokens in order, up to the first rejected token; all tokens are taken exactly when all are supported |
| CallArgs.ParseArguments | malcrepl.c:428-520 | the result is true exactly when every token is supported; either way the arrays gain the arguments accepted so far, in order, and the arena their blocks |
| ReturnType.DeclarationStart | malcrepl.c:528-542 | the start lies just after the last delimiter at or before the name, or at 0, and no delimiter lies between it and the name |
| ReturnType.FindReturnTypeStart | malcrepl.c:528-542 | the backward walk ends at DeclarationStart |
| ReturnType.Pattern | malcrepl.c:550-551 | `name(` cut to 255 characters by snprintf |
| ReturnType.SpaceBack | malcrepl.c:562-564 | the backward scan stops at 0 or at a non-whitespace character, and only whitespace lies behind it |
| ReturnType.DelimiterBack | malcrepl.c:571-578 | the scan stops just after a delimiter, or at 0, with no delimiter in between |
| ReturnType.SpaceForward | malcrepl.c:581-583 | the forward scan skips exactly the whitespace before the end |
| ReturnType.ExtractReturnType | malcrepl.c:544-602 | the method returns ReturnTypeText of the source, the name and the buffer size |
| ReturnType.SkipSpaceBack | malcrepl.c:562-564 | the loop ends where SpaceBack says |
| ReturnType.FindDelimiterBack | malcrepl.c:571-578 | the loop ends where DelimiterBack says |
| ReturnType.SkipSpaceForward | malcrepl.c:581-583 | the loop ends where SpaceForward says |
| ReturnType.ExtractedShape | malcrepl.c:585-601 | extracted text is non-empty, shorter than the buffer, trimmed at both ends and has no delimiter after its first character |
| ReturnType.TextBeforePlace | malcrepl.c:559-594 | the extracted text ends where the whitespace before `name(` starts, and it is copied from the source |
| ReturnType.NameAfterDelimiterFails | malcrepl.c:559-590 | a name preceded only by whitespace after a ';', '{' or '}' has no return type text |
| ReturnType.DetectReturnType | malcrepl.c:604-658 | the tag is the classification of the extracted text, or int when extraction fails |
| ReturnType.Classify | malcrepl.c:616-657 | the comparisons run in the source's order |
| ReturnType.DetectedText | malcrepl.c:613-614 | the second trim changes nothing: the extracted text is classified as it is |
| ReturnType.PointerExactlyWithStar | malcrepl.c:621-626 | any text but "void" is a pointer exactly when it contains '*' |
| ReturnType.ClassifiedWords | malcrepl.c:633-657 | "static int", "long long" and "unsigned long" all become int |
| ReturnType.ClassifiedPointers | malcrepl.c:616-654 | "char*" and "void *" are pointers, "double" is a double and "long" is a long |
| Renderer.Unsigned | malcrepl.c:688-690 | the unsigned value of n little-endian bytes is below 256^n |
| Renderer.Signed | malcrepl.c:688-690 | the two's complement value of the bytes lies in the signed range and differs from the unsigned value by 0 or 256^n |
| Renderer.LittleEndian | malcrepl.c:688-690 | a value stored in n bytes takes exactly n bytes |
| Renderer.UnsignedLittleEndian | malcrepl.c:688-690 | reading back the bytes of a value that fits gives the value |
| Renderer.LittleEndianWraps | malcrepl.c:688-690 | storing v and v + 256^n writes the same bytes |
| Renderer.LittleEndianPrefix | malcrepl.c:688-690 | the low k bytes of v stored in k + e bytes are v stored in k bytes |
| Renderer.SignedLittleEndian | malcrepl.c:688-690 | reading back a signed value that fits gives the value |
| Renderer.TextEnd | malcrepl.c:703-713 | the string test stops at 256, at the NUL or at the first byte that is neither printable nor whitespace, and accepts every byte before that |
| Renderer.TextEndAtNul | malcrepl.c:706-713 | when only accepted bytes come before a NUL at n, the scan stops at n |
| Renderer.Chars | malcrepl.c:716 | the characters shown are the bytes in memory |
| Renderer.Display | malcrepl.c:660-724 | what is shown is Rendered for the tag, the result bytes and the memory |
| Renderer.ShowPointer | malcrepl.c:695-720 | the pointer branch shows PointerShown for the address |
| Renderer.IntShownAsReturned | malcrepl.c:687-688 | an int or int32_t that the function returned is shown as that value |
| Renderer.LongShownAsReturned | malcrepl.c:689-690 | a long that the function returned is shown as that value |
| Renderer.CharShown | malcrepl.c:680-686 | a char is shown with its glyph exactly when it is printable, and otherwise as its signed value |
| Renderer.PointerShownAsString | malcrepl.c:695-720 | NULL shows as NULL; a pointer shows as a string exactly when it points at 1 to 255 printable or whitespace bytes followed by a NUL, and the string is those bytes; any other pointer shows as its address |
| CText.SignedChar | malcrepl.c:681-685 | `(int)c` of a char lies in -128..127 and agrees with the byte modulo 256 |
| CText.StrstrFrom | malcrepl.c:752 | strstr finds the first occurrence at or after i, or reports that there is none |
| Signature.ParenEnd | malcrepl.c:774-780 | the paren scan ends between its start and the end of the text |
| Signature.ParenEndCloses | malcrepl.c:774-780 | the scan stops exactly when all the parentheses opened so far are closed, just after that ')', or at the end of the text |
| Signature.ScanParens | malcrepl.c:776-780 | the loop ends where ParenEnd says |
| Signature.Squeeze | malcrepl.c:791-808 | compaction never lengthens the text |
| Signature.SqueezeNoNul | malcrepl.c:791-808 | compaction brings in no NUL |
| Signature.SqueezeShape | malcrepl.c:791-808 | compacted text has no leading whitespace; its only whitespace is single spaces; it keeps the other characters in order (SqueezeJoin pins where the single spaces go) |
| Signature.SqueezeStartsNonEmpty | malcrepl.c:791-808 | text that starts with a non-space character compacts to non-empty text |
| Signature.SqueezeRun | malcrepl.c:795-803 | a whitespace run of any length after a non-space character becomes exactly one ' ' |
| Signature.SqueezeAfter | malcrepl.c:791-808 | at a non-space character compaction restarts: the text before it does not affect how the rest is compacted |
| Signature.SqueezeJoin | malcrepl.c:791-808 | between two words, each whitespace run becomes one ' ', and each side is compacted on its own |
| Signature.SqueezeTwice | malcrepl.c:791-808 | compaction is idempotent |
| Signature.Compact | malcrepl.c:791-808 | the in-place loop leaves Squeeze of the text, terminated |
| Signature.CompactOne | malcrepl.c:796-806 | one pass keeps the character, turns a whitespace run into one space, or drops it, and leaves later characters alone |
| Signature.Copied | malcrepl.c:783-789 | the copied text is shorter than the buffer |
| Signature.SignatureStart | malcrepl.c:757-771 | the walk back and the whitespace skip never pass the name |
| Signature.SignatureHasNoNul | malcrepl.c:788-808 | a signature holds no NUL before its terminator |
| Signature.ExtractFunctionSignature | malcrepl.c:742-811 | it succeeds exactly when SignatureText exists, and then the buffer holds that text and a NUL |
| Signature.SignatureAt | malcrepl.c:757-808 | after a match, the buffer holds the compacted copy of the declaration, terminated |
| Signature.CopyInto | malcrepl.c:788-789 | memcpy puts the source characters in the buffer, followed by a NUL |
| Signature.SignatureShape | malcrepl.c:742-811 | a signature is compacted text shorter than the buffer, with the words of the declaration it was cut from; being Squeeze of that text, its spaces fall as SqueezeJoin says |
| Catalog.IdentEnd | malcrepl.c:835-838 | the identifier scan stops at the first character that is not an identifier character |
| Catalog.ScanTurn | malcrepl.c:826-885 | each turn moves forward, and a name it finds is an identifier |
| Catalog.CandidatesFrom | malcrepl.c:826-885 | every name the scan meets is an identifier |
| Catalog.CandidatesStep | malcrepl.c:826-885 | the names seen so far plus those after the current position make up all the candidates, one turn later too |
| Catalog.ScanOnce | malcrepl.c:828-884 | one pass of the scanning loops is ScanTurn |
| Catalog.Callables | malcrepl.c:856-857 | only candidates the module resolves are kept |
| Catalog.Contains | malcrepl.c:986-1075 | the strcmp loop reports a duplicate exactly when the name is already kept |
| Catalog.GetFunctionNames | malcrepl.c:986-1075 | the names returned are Names of the source and the module |
| Catalog.Unique | malcrepl.c:1036-1065 | removing duplicates keeps only names from the input |
| Catalog.FirstIndex | malcrepl.c:1036-1065 | the first occurrence of a name: it holds the name and no earlier position does |
| Catalog.UniqueInFirstOccurrenceOrder | malcrepl.c:1036-1065 | the kept names are in the order of their first occurrences |
| Catalog.NamesInScanOrder | malcrepl.c:986-1075 | get_function_names lists its names in the order the scan first meets them among the callable names |
| Catalog.UniqueCounts | malcrepl.c:986-1075 | removing duplicates keeps exactly one copy of each element and nothing else |
| Catalog.NamesOncePerName | malcrepl.c:986-1075 | each name that the scan meets and the module resolves is returned exactly once, and no other name is returned |
| Catalog.ListFunctions | malcrepl.c:814-886 | the entries are Listed of the source and the module |
| Catalog.Describe | malcrepl.c:859-877 | an entry exists exactly when the signature can be extracted, and it holds the name and that signature |
| Catalog.CopyOut | malcrepl.c:877 | strdup of the buffer gives its NUL-terminated text |
| Catalog.SignatureFound | malcrepl.c:750-755 | signature extraction fails only when `name(` does not occur |
| Catalog.ListedPerOccurrence | malcrepl.c:814-886 | a name is listed once per occurrence when the module resolves it and `name(` occurs, and never otherwise |
| Catalog.ListedInScanOrder | malcrepl.c:814-886 | the names listed are a subsequence of the names the scan meets, in text order |
| Catalog.ListedSignatures | malcrepl.c:859-877 | each entry carries the signature that extract_function_signature gives for its name |
| Catalog.ListedAreNames | malcrepl.c:814-1075 | every name `:list` shows is also one get_function_names returns |
| Interrupt.Press | malcrepl.c:63-71 | a press stamps the time; the count restarts at 1 after a gap of more than two seconds or from zero, and otherwise goes up |
| Interrupt.CtrlC.constructor | malcrepl.c:55-56 | the count and the last time start at 0 |
| Interrupt.CtrlC.Handle | malcrepl.c:87-104 | the globals move to Press of the old state, and the handler exits exactly when the count reaches 2 |
| Interrupt.FirstPressWarns | malcrepl.c:60-84 | the first press after start-up only warns |
| Interrupt.WarningLeavesOne | malcrepl.c:60-84 | a press that does not exit leaves the count at one |
| Interrupt.SecondPressExits | malcrepl.c:60-84 | after a warning at t, the next press exits exactly when it comes at most two seconds later |
| Interrupt.StalePressWarns | malcrepl.c:66-77 | a press more than two seconds after the last never exits |
| Interrupt.SurvivedRun | malcrepl.c:60-104 | after any run of presses the process survived, the count is 0 or 1, and the next press exits exactly when it is within two seconds of the last |
| Session.FunctionName | malcrepl.c:1314-1316 | strncpy keeps the name when it is shorter than 256, and otherwise its first 255 characters |
| Session.Command | malcrepl.c:1275-1299 | a built-in command never calls a function, and it leaves the loop exactly for :quit, :q, :reload and :r |
| Session.CallResponse | malcrepl.c:1303-1359 | the call path never leaves the loop; it reports no token exactly for a line without tokens; a name reported not found is one the module does not resolve, and bad arguments, a failed preparation or a call are about a name it does resolve |
| Session.Response | malcrepl.c:1246-1359 | end of input continues in the readline build and ends in the fgets build, and nothing else does either; a line is blank exactly when it trims to nothing; only the quit and reload words quit or reload |
| Session.Stored | malcrepl.c:1335-1341 | the result buffer has the size of the return type |
| Session.IsCommand | malcrepl.c:1276-1290 | the comparison holds exactly when the input is the command word or its short form |
| Session.Repl.constructor | malcrepl.c:1217-1218 | a session starts with empty argument arrays that have no storage |
| Session.Repl.Turn | malcrepl.c:1230-1360 | one turn answers the line with Response; afterwards the arrays hold exactly this line's arguments, the arena exactly its blocks (plus the result buffer), and the capacities have not shrunk |
| Session.Repl.Line | malcrepl.c:1236-1360 | after the resets, the line is answered with Response, with the same arrays and arena as Turn |
| Session.Repl.Dispatch | malcrepl.c:1275-1299 | the built-in commands are matched as Command says |
| Session.Repl.Call | malcrepl.c:1303-1359 | the call path answers with CallResponse; the arrays hold the arguments accepted for a resolved name and nothing otherwise |
| Session.Repl.Run | malcrepl.c:1229-1360 | each outcome answers its line with the capacities from before that turn; the loop ends at the end of the lines or at the first quit, end of input or reload; capacities never shrink |
| Session.EndOfInputByBuild | malcrepl.c:1246-1267 | end of input keeps the readline build looping and ends the fgets build |
| Session.CommandLines | malcrepl.c:1275-1299 | a trimmed line starting with ':' never reaches the lexer: :quit/:q quit, :reload/:r reload, :info reports the capacities, anything outside the command words is unknown |
| Session.BlankLines | malcrepl.c:1257-1271 | a line is skipped as blank exactly when it is whitespace only |
| Session.PaddedQuit | malcrepl.c:1270-1277 | "  :q\n" quits: commands are compared after trimming |
| Session.ExactCommandsOnly | malcrepl.c:1276-1298 | ":quit now" is an unknown command |
| Session.CommandsCaseSensitive | malcrepl.c:1276-1298 | ":Q" is an unknown command |
| Session.CallPath | malcrepl.c:1306-1352 | a name is not found exactly when the first token is an identifier the module does not resolve; a call happens exactly when the name resolves, every argument is supported and the call can be prepared; the call gets the truncated name, the detected return type and one argument per token, in order |
| Session.CalledShowsResult | malcrepl.c:1352-1356 | after a call, void shows nothing; an int, int32_t or long whose low bytes the function wrote is shown as that value, whatever it wrote beyond them; a char shows its glyph exactly when its byte is printable, and its signed value |
| Session.CalledShowsWidenedInt | malcrepl.c:1352-1356 | an int result that libffi stores widened to a whole 8-byte register still shows as the int |
| MinimalRepl.TempStorage.constructor | crepl.c:47 | the temp storage starts with no requests |
| MinimalRepl.TempStorage.Save | crepl.c:47 | the mark is the number of requests so far |
| MinimalRepl.TempStorage.Rewind | crepl.c:52 | rewinding forgets every request after the mark |
| MinimalRepl.TempStorage.Alloc | crepl.c:81 | an allocation is recorded after the others |
| MinimalRepl.TempStorage.Strdup | crepl.c:88 | the copy equals the string and takes its length plus one |
| MinimalRepl.ReplyTo | crepl.c:50-103 | a turn quits exactly at end of input |
| MinimalRepl.CallReply | crepl.c:61-103 | a line never quits; a name reported missing is not exported; a call goes to an exported function with one argument per further token |
| MinimalRepl.MinimalArgument | crepl.c:78-94 | only integer and "..." string tokens give arguments |
| MinimalRepl.Minimal.constructor | crepl.c:45-47 | empty argument arrays and a mark at the current temp position |
| MinimalRepl.Minimal.Turn | crepl.c:50-103 | the reply is ReplyTo the line; for a resolved name the arrays hold the line's arguments and the temp storage the mark's prefix plus their requests; otherwise the arrays are unchanged and the temp storage is rewound |
| MinimalRepl.Minimal.Call | crepl.c:61-103 | the reply is CallReply; an unresolved name changes nothing |
| MinimalRepl.Minimal.TakeArguments | crepl.c:77-95 | the loop succeeds exactly when every token is an integer or a string, and appends the arguments taken, in order |
| MinimalRepl.Minimal.Push | crepl.c:79-90 | one argument adds its type, its value and its temp requests |
| MinimalRepl.Minimal.Run | crepl.c:50-106 | each reply answers its line; the loop ends at end of input with Quit, or when the lines run out; the temp storage before the mark is kept |
| MinimalRepl.TakenInOrder | crepl.c:77-95 | the arguments taken are those of the tokens in order; all are taken exactly when every token is an integer or a string |
| MinimalRepl.CallPath | crepl.c:61-103 | an unexported name is reported before the arguments; a bad token rejects the line; a call happens exactly when every argument is taken and the call can be prepared; integers are passed as `int`, strings as pointers |
| MinimalRepl.EndOfInputQuits | crepl.c:55-106 | end of input ends the loop with "Quit" |
| MinimalRepl.AgreesWithParseArguments | crepl.c:77-95 | the minimal loop builds the same argument as parse_arguments for each token it accepts, except an integer with an L suffix |
| MinimalRepl.OnlyIntsAndStrings | crepl.c:79-90 | every argument is an `int` or a `char *` |
| Slices.Sliced | enclib.h:4-12 | a slice of a NULL source or an empty range is empty; otherwise it has end - start bytes |
| Slices.SliceOfCString | enclib.h:4-12 | a slice of a C string holds no NUL |
| Slices.Slice | enclib.h:4-12 | dst receives the slice and a NUL, and nothing else in it changes |
| Base64.Digit | enclib.h:62-63 | the alphabet table never gives the padding character '=' |
| Base64.CharValue | enclib.h:99-106 | an alphabet character gets its 6-bit value, and any other character gets -1 |
| Base64.CharValueOfDigit | enclib.h:62-106 | base64_char_value undoes the alphabet table |
| Base64.DigitOfCharValue | enclib.h:62-106 | the alphabet table undoes base64_char_value |
| Base64.Triple | enclib.h:76 | the three octets make a 24-bit word |
| Base64.SextetsRejoin | enclib.h:78-81 | splitting a 24-bit word into sextets and joining them again gives the word |
| Base64.GroupCountIsQuotient | enclib.h:66 | the number of groups is `(n + 2) / 3` |
| Base64.PadCountIsRemainder | enclib.h:85-93 | the padding count follows `n % 3` as the switch does |
| Base64.PaddingGivesEncoded | enclib.h:71-93 | padding the quads the loop writes gives the Base64 text |
| Base64.EncodedLength | enclib.h:66 | the text has `4 * ((n + 2) / 3)` characters |
| Base64.EncodedPadding | enclib.h:85-93 | the last character is '=' exactly when n mod 3 is not 0, and the one before it exactly when n mod 3 is 1 |
| Base64.Encode | enclib.h:65-97 | the encoder returns the Base64 text of the input and its length `4 * ((n + 2) / 3)` |
| Base64.WriteQuad | enclib.h:78-81 | the four stores append the quad |
| Base64.AddPadding | enclib.h:85-93 | the switch overwrites the last characters with '=' |
| Base64.Decoded | enclib.h:108-144 | decoding fails for a length that is not a multiple of 4; otherwise the bytes fit in the declared length |
| Base64.ContributionsRejected | enclib.h:125-132 | the first quads contribute nothing exactly when one of them has a first or second character outside the alphabet |
| Base64.DecodedRejects | enclib.h:108-132 | decoding fails exactly when the length is not a multiple of 4 or some quad has a first or second character outside the alphabet; a bad third or fourth character never rejects |
| Base64.Decode | enclib.h:108-144 | the decoder fails exactly when Decoded does; the buffer has the declared length and begins with Decoded |
| Base64.StoreQuad | enclib.h:134-140 | each guarded store appends a byte of the quad until the buffer is full |
| Base64.QuadBytesOfQuad | enclib.h:124-140 | a full quad decodes to its three octets |
| Base64.QuadBytesOfPair | enclib.h:124-140 | three characters and one '=' decode to two octets |
| Base64.QuadBytesOfSingle | enclib.h:124-140 | two characters and "==" decode to one octet |
| Base64.ContributionsOfEncoded | enclib.h:65-144 | the quads of the Base64 text of data decode to exactly data |
| Base64.RoundTrip | enclib.h:65-144 | decoding the encoder's output gives back the input, with the declared length equal to the input length |
| Base85.GroupCountIsQuotient | enclib.h:156 | the number of rounds is `(n + 3) / 4` |
| Base85.OctetsOfWordPrefix | enclib.h:166-169 | the bytes of a group are the big-endian bytes of its value |
| Base85.Encoded | enclib.h:147-193 | the text holds only digit characters and 'z' |
| Base85.EncodedLength | enclib.h:160-190 | the text has five characters per group, less four for each all-zero group |
| Base85.EncodedFits | enclib.h:156-157 | the text never exceeds the `((n + 3) / 4) * 5` bytes allocated |
| Base85.ZeroMarkMeansZeroGroup | enclib.h:171-175 | the text holds 'z' exactly when some group of the input is all zero |
| Base85.Encode | enclib.h:147-193 | the encoder returns Encoded of the input, and its reported length is the text's length |
| Base85.EncodeGroup | enclib.h:161-188 | one round writes the text of the next group |
| Base85.ReadWord | enclib.h:166-169 | the read loop yields the big-endian word of the next four bytes, zero past the end, and `bytes` always ends at 4 |
| Base85.EmitDigits | enclib.h:178-187 | the digit loops write the five base-85 digits of the value |
| Base85.Value | enclib.h:238 | the running value wraps at 2^32 |
| Base85.GroupsFrom | enclib.h:209-258 | the bytes decoded from the remaining text fit in the room left in the buffer |
| Base85.Decoded | enclib.h:195-263 | the decoded bytes fit in the `(4L+4)/5`-byte buffer |
| Base85.Decode | enclib.h:195-263 | the decoder returns Decoded of the input |
| Base85.DecodeGroup | enclib.h:209-258 | one round fails exactly where GroupsFrom does, and otherwise appends the group's bytes |
| Base85.DecodeDigits | enclib.h:223-257 | a round that starts at a digit fails exactly where GroupsFrom does, and otherwise appends the group's bytes |
| Base85.ZeroMarkStep | enclib.h:210-221 | a 'z' fails when fewer than four bytes of room remain, and otherwise yields four zeros |
| Base85.DigitGroupStep | enclib.h:224-258 | a digit run fails on a bad character or too little room, and otherwise yields the low bytes of its value |
| Base85.ReadGroup | enclib.h:228-240 | the digit loop succeeds exactly when the run holds only digit characters, and returns its value |
| Base85.StoreWord | enclib.h:249-258 | the byte loop stores the low `bytes` bytes of the value, most significant first, or fails when the buffer is full |
| Base85.ValueOfDigits | enclib.h:178-238 | reading back the digits of a value below 85^n and 2^32 gives the value |
| Base85.GroupsOfEncoded | enclib.h:147-263 | each encoder round decodes to its four zero-padded bytes, given room for four bytes a round |
| Base85.RoundTripPadded | enclib.h:147-263 | decoding the encoder's output gives the input zero-padded to whole groups when no group is all zero, and fails otherwise |
| Base85.ZeroMarkFailsToDecode | enclib.h:204-215 | encoder output that holds 'z' never decodes |
| Base85.RoundTrip | enclib.h:147-263 | for whole groups, none of them zero, decoding gives back exactly the input |
| XorCipher.BitXorTwice | enclib.h:265-272 | XOR-ing twice with the same key bits gives the original bits |
| XorCipher.Complement | enclib.h:274-281 | the inverted key byte plus the key byte is 255 |
| XorCipher.XoredTwice | enclib.h:265-272 | xor_with_key undoes itself |
| XorCipher.InverseXoredTwice | enclib.h:274-281 | xor_with_inverse_key undoes itself |
| XorCipher.EmptyKeyKeepsData | enclib.h:265-281 | an empty key leaves the data as it is |
| XorCipher.XorWithKey | enclib.h:265-272 | the first dataLen bytes are XOR-ed with the repeating key, and nothing after them changes |
| XorCipher.XorWithInverseKey | enclib.h:274-281 | the first dataLen bytes are XOR-ed with the inverted repeating key, and nothing after them changes |
| Obfuscation.KeyXored | enclib.h:294-297 | XOR with the key over a fresh copy gives Xored |
| Obfuscation.InverseKeyXored | enclib.h:307 | XOR with the inverted key over a copy gives InverseXored |
| Obfuscation.Encrypt | enclib.h:283-318 | encrypt_string gives "" for "" and otherwise the four layers in turn |
| Obfuscation.Decrypt | enclib.h:320-367 | decrypt_string gives "" for ""; it gives NULL when Base64 decoding fails, and the plaintext whenever the Base64 layer fills its buffer |
| Obfuscation.Terminated | enclib.h:356-362 | the bytes before the terminator are the decoded bytes |
| Obfuscation.DecryptedLayers | enclib.h:330-353 | decryption is NULL when Base85 decoding fails, and otherwise the key XOR of its output |
| Obfuscation.DecryptEncryptedPadded | enclib.h:283-367 | decrypting encrypted text undoes the outer layers exactly; it gives the plaintext zero-padded to whole groups, or fails when a group of the XOR-ed plaintext is all zero |
| Obfuscation.DecryptEncrypted | enclib.h:283-367 | decrypt(encrypt(s, k), k) is s when the length is a multiple of 4 and no group of s XOR k is all zero |
| NetLib.StrncmpIsPrefixTest | netlib.h:3-4 | strncmp over the pattern's length is 0 exactly when the string starts with the pattern |
| NetLib.StrncmpZeroStartsWith | netlib.h:3-4 | whatever the string holds, strncmp over a NUL-free pattern's length is 0 only when the string starts with the pattern |
| NetLib.IsUrl | netlib.h:2-5 | a path is a URL only when it begins with "http://" or "https://" |
| NetLib.IsUrlMeansScheme | netlib.h:2-5 | a path is a URL exactly when it begins with "http://" or "https://" |
| NetLib.MemoryBuffer.constructor | netlib.h:8-11 | a new buffer has no block and size 0 |
| NetLib.MemoryBuffer.Init | netlib.h:35-44 | success gives status 0 and an empty terminated block; a failed malloc gives -1 and no block |
| NetLib.MemoryBuffer.Write | netlib.h:14-32 | a successful write appends `size * nmemb` bytes and reports that count; a failed realloc reports 0 and leaves the buffer unchanged |

## Left out

- Running out of memory. `calloc`, `malloc`, `realloc` and `strdup` in the REPL core always succeed. The growth of the `:list` array (from 16) and of the name array (from 32) is not modelled, since no state outside the functions sees it. In netlib.h, a failed allocation is a parameter.
- Floating point. Float and double arguments carry no value. Float and double results are kept as raw bytes, and their `%f` text is not modelled.
- Printed text. Only the choice of message or result is modelled, not its wording.
- Line editing. The readline prompt, history, tab completion and their caches are not modelled.
- Dynamic lookup. TCC compilation, `dlopen`/`dlsym` and symbol lookup are not modelled: the compiled module is the set of names it resolves.
- libffi. `ffi_prep_cif` and `ffi_call` are the injected `Executor`.
- The lexer. stb_c_lexer.h is not part of this model. Its tokens are an input, produced by a function from a line.
- Process control. Installing the SIGINT handler, `exit`, and the handler's readline calls are not modelled. An exit is the `exits` result of `Interrupt.CtrlC.Handle`.
- File and network I/O. These are not modelled:
  - reading and writing files;
  - the key prompt;
  - `read_enc_dec_managed`;
  - `download_from_url`;
  - `get_http_status`;
  - the command-line parsing of `main`.
- Reload. `:reload` jumps back to `launch`, which recompiles the source. The model returns the `Reload` outcome, and a new `Session.Repl` stands for the new module.
- nob.h's temp storage. It is not part of this model. The minimal loop's temp storage is a log of request sizes, without capacity or alignment.
- Line buffers. The fgets builds read into fixed 4096- and 1024-character buffers, which would split longer lines. Each input line is taken whole.
- Pointer results. The memory a returned pointer points to is a function of the call (`Executor.memory`), not a model of the process's memory.
- Session.Stored: the result block has `return_type->size` bytes, as `temp_alloc` gets them (malcrepl.c:1335). libffi stores an integral result narrower than a register as a whole 8-byte `ffi_arg`, so for a char, int or int32_t result `ffi_call` writes past the end of that block. The model keeps only the first Size(tag) bytes of what the call writes and does not model the out-of-bounds store or what it overwrites in the arena.
- NetLib.MemoryBuffer.Write: `size * nmemb` (netlib.h:15) and `buffer->size + total_size + 1` (netlib.h:19) are `size_t` arithmetic and can wrap; the model uses unbounded integers, so it does not capture a wrapped count or a realloc to a wrapped size. libcurl passes `size == 1`, which keeps the product at the chunk length.
- Session.Repl.Run: states that the capacities never shrink, not by how much they grow on each turn. Turn ties the arrays' contents to the line exactly.
- Obfuscation.Decrypt: its result is stated exactly only when the Base64 layer writes every byte of its buffer. When a quad holds '=' before its end, the C code leaves part of the `malloc` buffer uninitialised, and the model leaves those bytes unconstrained.
- Base64.Decode: requires non-empty input. For empty input the C code reads `data[-1]`; its only caller, decrypt_string, handles "" first.
- Signature.ExtractFunctionSignature: requires the name to be an identifier, as in its only caller, list_functions. The NULL-argument checks and the `sig_size == 0` check are not modelled, since that caller never meets them.
- CText.CString: one Dafny `char` stands for one C `char`, that is, one byte; text with multi-byte characters (UTF-8, say) is given to the model one character per byte. Read that way, the byte limits all count bytes as the C code does: the 255 characters of Session.FunctionName (`current_func[256]`), the 255 of ReturnType.Pattern and the signature pattern (`pattern[256]`), Catalog's `name_len < 256`, the 512- and 64-byte signature and return-type buffers, and the one-character test of CallArgs.ArgumentOf for a '...' literal. The model does not capture a `char` above 255 standing for several bytes: given 'é' as one character, it accepts `'é'` as a char literal, which the C lexer, seeing two UTF-8 bytes, rejects.
- Catalog.ScanTurn: the source's `p++` after a non-identifier character at the end of the text, and its scans past the terminator, are modelled as stopping at the end of the text.
- ReturnType.ExtractReturnType: when `name(` is at offset 0 the source reads `code[-1]`. The model treats this case as a failed extraction.
