# Zlyme cores, modelled and proved in Dafny

This project models the parts of the Zlyme handheld system in which a small mistake does the most damage, and proves
what those parts are for. Every theorem is over all inputs, all runs or all reachable states.

* **JSON library (parson).** The object hash table (open addressing, linear probing, growth with rehash,
  swap-with-last removal, backward-shift deletion) cannot be told apart from a plain map. The parser is a cursor over the
  text, the serializer writes a buffer in two passes, and each undoes the other up to the nesting limit. The string
  decoder and the UTF-8 check are tied to the encoding of section 3 of RFC 3629, and what the parser takes for white space,
  numbers and strings is compared with RFC 8259.
  (`JsonTable`, `Utf8`, `JsonString`, `JsonEscape`, `JsonText`, `JsonParser`, `JsonRoundTrip`, `JsonGrammar`)
* **Preloader recovery transform.** A flattened device tree is walked, one property is shortened, everything behind it
  moves, three header fields are fixed, and two boot entries are resealed with their digests. The edited tree means the
  same as before except for that property, and nothing else in the image moves.
  (`Binary`, `Fdt`, `FdtTree`, `BootOrder`, `Preloader`, `Recovery`)
* **Gamepad driver.** A resynchronising framer, the acquisition of the boot centre, calibration writes, scaling and the
  radial deadzone are one state machine; the driver with its buffers refines it under every interleaving of bytes, times
  and writes. (`Framer`, `Stick`, `BootCenter`, `Gamepad`, `GamepadDriver`)
* **DDR frequency and voltage.** Every intermediate point of a rate change, with every step allowed to fail, is a state of
  supply and possible rates. The supply covers the rates exactly when a condition on the call holds. (`DmcFreq`)
* **Pak session supervisor.** The supervisor runs against a process table that other processes change between any two
  system calls (fork, exit, release, setsid, setpgid, PID reuse). A log keeps every call it made with the table as it was
  at that call, and everything promised of it, its exit code included, is a statement about that log.
  (`ProcTable`, `PakLog`, `PakSpawn`)
* **Lid policy and letter navigation.** The suspend policy over whole event runs, and the two letter jumps of the list as
  inverses on the heads of the letter groups. (`LidPolicy`, `ListNav`)

`Bytes`, `Arithmetic` and `Slices` hold what several of these need.

A method in the model that follows a loop or an in-place update of the source is proved equal to a function; the theorems
are about that function. `dafny verify dfyconfig.toml` checks everything.

## Where the code differs from what one would expect

* The string decoder can read up to three bytes past the closing quote when the first escape that does not decode is a
  `\u` escape cut short by that quote; it then fails, and it never reads past the terminator of the text.
  `JsonString.ReachStaysInside` gives the bound and the exact condition on the text, and `JsonString.OverReadExample` an
  input. A decoding that succeeds reads nothing past the quote.
* A failed upward rate change leaves the DDR at the old or the new rate while the recorded rate is the old one. A later,
  smaller upward change requests its own voltage without comparing it with the recorded one, and can lower the supply
  under a rate the DDR may have. `DmcFreq.FailedRiseThenUnsafe` is a run that does this. `DmcFreq.RecordSafeIff` says for
  which recorded rate and voltage a request is safe whatever the DDR may be at and whatever fails, and `DmcFreq.RunSafeIff`
  which lists of requests are.
* A verified signal can reach a process that is not the pak's, but only after the child has been collected. Once nothing
  is left of a pak's session, its number can come to name another session, even one whose leader has already gone
  (`ProcTable.SessionNumberReused`), and a whole scan then lists the stranger and every check before the signal passes:
  `PakLog.StrangerIsHit` is such a log. `PakLog.HeldSignalsStayInPak` says that until the child is collected every verified
  signal hits a process of the pak or one that left it for a session of its own, and `ProcTable.SessionIsUnique` that a
  process with the session number belongs to the pak exactly while anything of the session is left. The supervisor's own
  session is never hit.
* In `rk3568_dmc_set_rate` the transition is marked as started before anything in it can fail, so the branches that
  restore the supply of a change that failed without having started never run; `DmcFreq.Driver.SetRate` states the former
  and the branches are not modelled.
* A lone `-` is the number zero to the JSON parser (`JsonParser.LoneMinusIsZero`), and so is any text that starts with a
  minus sign and no number behind it, whatever follows (`JsonParser.SignAloneIsZero`). `JsonParser.EmptyNumberIff` says that
  a number is accepted without consuming anything exactly there.
* The parser accepts more than RFC 8259 and refuses some of it: vertical tabs and form feeds are white space
  (`JsonGrammar.SpacesIff`), a comma may stand in front of a closing bracket (`JsonGrammar.TrailingCommaAccepted`), `1.` and
  `-.5` pass the spelling rule for numbers (`JsonGrammar.AcceptedBeyondGrammar`); numbers like `0e1` and strings with
  unpaired escaped surrogates are refused, and these are the only grammatical ones that the spelling rule and the string
  decoder refuse (`JsonGrammar.RefusedNumbersIff`, `JsonGrammar.DecodesIff`).

## Model

| member | source | states |
|---|---|---|
| `JsonTable.HashString` | package/system/minui-list/parson/parson.c:427-446 | the loop computes the djb2 hash with the wrap-around of a 64-bit word, of the bytes in front of a NUL |
| `JsonTable.MaskIsModulo` | package/system/minui-list/parson/parson.c:563-592 | masking with capacity - 1 is reduction modulo the capacity for every power of two, so a home cell is always in the array |
| `JsonTable.EmptyCellExists` | package/system/minui-list/parson/parson.c:463-503 | a table whose cells and items are mutually linked and which holds fewer items than cells has an empty cell, so every probe ends |
| `JsonTable.ProbeStopsPastItem` | package/system/minui-list/parson/parson.c:563-592 | with gap-free probe paths, a probe reaches the cell of every item with its home before any empty cell, also round the end of the array |
| `JsonTable.SearchMisses` | package/system/minui-list/parson/parson.c:563-592 | a probe that ends at an empty cell has excluded every stored key |
| `JsonTable.InsertKeeps` | package/system/minui-list/parson/parson.c:594-628 | storing a new item where its own probe ends keeps cells and items mutually inverse and all probe paths gap-free |
| `JsonTable.SwapOpensHole` | package/system/minui-list/parson/parson.c:648-687 | moving the last item into the removed slot leaves a structure that is gap-free except for the one freed cell |
| `JsonTable.ShiftMoves` | package/system/minui-list/parson/parson.c:689-706 | moving an item whose home is not between hole and item moves the hole and breaks no other path |
| `JsonTable.ShiftSkips` | package/system/minui-list/parson/parson.c:689-706 | an item whose path does not cross the hole may be passed over |
| `JsonTable.ShiftStops` | package/system/minui-list/parson/parson.c:689-706 | at the first empty cell every path is gap-free again |
| `JsonTable.ObjectTable.constructor` | package/system/minui-list/parson/parson.c:463-503 | a new table satisfies the invariant and holds nothing |
| `JsonTable.ObjectTable.GetCellIx` | package/system/minui-list/parson/parson.c:563-592 | found exactly for stored keys, with the cell of that key; otherwise the empty cell at which the key belongs |
| `JsonTable.ObjectTable.Append` | package/system/minui-list/parson/parson.c:619-627 | appends key and value in order and keeps the invariant |
| `JsonTable.ObjectTable.Insert` | package/system/minui-list/parson/parson.c:611-627 | as Append, growing first when the table is full |
| `JsonTable.ObjectTable.Add` | package/system/minui-list/parson/parson.c:594-628 | refuses exactly the keys already there and otherwise appends; a refusal changes nothing |
| `JsonTable.ObjectTable.RehashInto` | package/system/minui-list/parson/parson.c:533-561 | the bigger table ends with the same items in the same order |
| `JsonTable.ObjectTable.GrowAndRehash` | package/system/minui-list/parson/parson.c:533-561 | keys, values and their order survive growth, and there is room for one more item |
| `JsonTable.ObjectTable.GetValue` | package/system/minui-list/parson/parson.c:630-646 | returns what the map holds for the key, or nothing |
| `JsonTable.ObjectTable.SetValue` | package/system/minui-list/parson/parson.c:2092-2133 | overwrites in place or appends; refuses a value that already has a parent without changing anything |
| `JsonTable.ObjectTable.ShiftStep` | package/system/minui-list/parson/parson.c:689-706 | one turn of the backward shift keeps the structure with its hole, or stops with the hole closed |
| `JsonTable.ObjectTable.CloseHole` | package/system/minui-list/parson/parson.c:689-706 | the backward shift ends with mutually inverse links and gap-free paths |
| `JsonTable.ObjectTable.DropItem` | package/system/minui-list/parson/parson.c:679-687 | exactly the named slot is replaced by the last item, in all four item arrays |
| `JsonTable.ObjectTable.SwapOut` | package/system/minui-list/parson/parson.c:671-687 | as DropItem, with the cell of the moved item relinked and the freed cell the only hole |
| `JsonTable.ObjectTable.Remove` | package/system/minui-list/parson/parson.c:648-706 | removes exactly its own key, fails exactly on missing keys, keeps the invariant |
| `JsonTable.ObjectTable.Clear` | package/system/minui-list/parson/parson.c:2299-2316 | holds nothing afterwards and still satisfies the invariant |
| `JsonTable.AsMapSwapRemove` | package/system/minui-list/parson/parson.c:679-687 | swap-with-last removal on a list with distinct keys is deletion of that key from its map |
| `JsonTable.Perform` | package/system/minui-list/parson/parson.c:594-706 | every request has on the table the effect and the reply that it has on a plain map |
| `JsonTable.RunOps` | package/system/minui-list/parson/parson.c:533-706 | any sequence of add, set, get, remove and clear gets from a new table the replies it gets from an empty map |
| `Utf8.IsValidUtf8` | package/system/minui-list/parson/parson.c:400-410 | the loop decides the validity predicate |
| `Utf8.EncodedVerifies` | package/system/minui-list/parson/parson.c:350-398 | the encoding of every scalar value is accepted with its exact length, whatever follows |
| `Utf8.VerifiedIsEncoded` | package/system/minui-list/parson/parson.c:350-398 | an accepted sequence is the encoding of a scalar value: no overlong form, surrogate or value past 10FFFF |
| `Utf8.CodePoints` | package/system/minui-list/parson/parson.c:400-410 | accepted bytes are the encoding of some sequence of scalar values |
| `Utf8.EncodedIsValid` | package/system/minui-list/parson/parson.c:400-410 | the encoding of any sequence of scalar values is accepted |
| `Utf8.ValidIffEncoded` | package/system/minui-list/parson/parson.c:400-410 | is_valid_utf8 accepts exactly the encodings of section 3 of RFC 3629 |
| `Utf8.EncodeIsStandard` | package/system/minui-list/parson/parson.c:815-862 | the masks and shifts of parse_utf16 write the standard encoding: a lead byte for the length and six bits in each byte behind it |
| `JsonString.SkipQuotes` | package/system/minui-list/parson/parson.c:795-813 | finds the closing quote that no backslash escapes, or fails at the terminator |
| `JsonString.StepStaysInside` | package/system/minui-list/parson/parson.c:815-862 | a successful decoding step stays in front of the quote, reads nothing past what it consumes, writes between one byte and as many as it consumes, and writes the encoding of one character |
| `JsonString.DecodeShrinks` | package/system/minui-list/parson/parson.c:864-919 | the decoded string is never longer than its text |
| `JsonString.ProcessString` | package/system/minui-list/parson/parson.c:864-919 | the decoding loop never overruns its output buffer and computes the decoded string or fails; what the decoded string is, `JsonEscape` and `JsonGrammar` state |
| `JsonString.ReachStaysInside` | package/system/minui-list/parson/parson.c:815-919 | nothing past the terminator and at most three bytes past the closing quote are read; something past that quote is read exactly when a unicode escape starts within the last four content bytes and what stands in front of it decodes, but for its own lead surrogate; never on success |
| `JsonString.OverReadExample` | package/system/minui-list/parson/parson.c:319-333 | a text on which the decoder reads three bytes past the closing quote |
| `JsonString.DecodeKeepsUtf8` | package/system/minui-list/parson/parson.c:815-919 | valid UTF-8 with escapes, surrogate pairs included, decodes to valid UTF-8 |
| `JsonString.EscapeBytesDecode` | package/system/minui-list/parson/parson.c:1298-1363 | decoding undoes escaping for every byte string and both slash settings |
| `JsonString.QuoteDecodes` | package/system/minui-list/parson/parson.c:921-930 | reading a printed string anywhere in a text returns the string and ends right behind it |
| `JsonEscape.EscapeDecodes` | package/system/minui-list/parson/parson.c:319-333 | a `\u` escape of any scalar value below 10000, its four digits printed in either case each, decodes to the standard encoding of that value, wherever it stands |
| `JsonEscape.PairDecodes` | package/system/minui-list/parson/parson.c:815-862 | the two escapes of the UTF-16 pair of any value from 10000 to 10FFFF decode to the standard encoding of that value |
| `JsonEscape.EscapeIsCharacter` | package/system/minui-list/parson/parson.c:864-919 | between its quotes the escape of any scalar value is that character and nothing else |
| `JsonEscape.ShortEscapeDecodes` | package/system/minui-list/parson/parson.c:875-885 | each two-character escape of section 7 of RFC 8259 decodes to the byte it stands for |
| `JsonText.Copy` | package/system/minui-list/parson/parson.c:1137-1145 | appends to the buffer when there is one and counts the same bytes when there is none |
| `JsonText.Append` | package/system/minui-list/parson/parson.c:1137-1145 | as Copy, with the terminator written inside the buffer |
| `JsonText.AppendIndent` | package/system/minui-list/parson/parson.c:1147-1152 | four spaces per level, counted or written |
| `JsonText.SerializeString` | package/system/minui-list/parson/parson.c:1298-1363 | writes or counts exactly the quoted form |
| `JsonText.Serialize` | package/system/minui-list/parson/parson.c:1154-1296 | for every value, level and style writes or counts exactly the printed form, within the room that it needs |
| `JsonText.SerializeContainer` | package/system/minui-list/parson/parson.c:1166-1246 | the array and object cases, which differ in brackets and parts only |
| `JsonText.SerializationSize` | package/system/minui-list/parson/parson.c:1807-1811 | the sizing pass returns one more than the length of the printed form |
| `JsonText.SerializeToString` | package/system/minui-list/parson/parson.c:1848-1865 | the writing pass fills a buffer of exactly the computed size: the printed form and, as its last byte, the terminator |
| `JsonParser.CheckDecimal` | package/system/minui-list/parson/parson.c:412-425 | the backward loop decides the spelling rule for numbers |
| `JsonParser.Parser.SkipWhitespace` | package/system/minui-list/parson/parson.c:81-81 | the cursor stops at the first byte that is no white space |
| `JsonParser.Parser.GetQuotedString` | package/system/minui-list/parson/parson.c:921-930 | returns the decoded string with the cursor behind the quote, or fails |
| `JsonParser.Parser.ParseNumberValue` | package/system/minui-list/parson/parson.c:1107-1120 | accepts what the number reader and the spelling rule accept, with the cursor behind it |
| `JsonParser.Parser.ParseLiteralValue` | package/system/minui-list/parson/parson.c:1094-1129 | reads true, false and null and nothing else |
| `JsonParser.Parser.NextElement` | package/system/minui-list/parson/parson.c:1059-1076 | after an element: on to the next, the end of the container, or an error, with a trailing comma accepted in front of the bracket |
| `JsonParser.Parser.ParseValueAt` | package/system/minui-list/parson/parson.c:932-955 | the recursive descent with a shared cursor computes the functional grammar, nesting limit included |
| `JsonParser.Parser.ParseArrayValue` | package/system/minui-list/parson/parson.c:1030-1077 | the element loop computes the items of the grammar in order |
| `JsonParser.Parser.ParseMembersInto` | package/system/minui-list/parson/parson.c:957-1028 | the member loop fills the hash table with the members of the grammar in order and fails on a repeated key |
| `JsonParser.Parser.ParseObjectValue` | package/system/minui-list/parson/parson.c:957-1028 | as the grammar, read out of the filled table |
| `JsonParser.AddMember` | package/system/minui-list/parson/parson.c:594-628 | adding to the table appends to the member list, unless the key is there |
| `JsonParser.ParseJson` | package/system/minui-list/parson/parson.c:1391-1399 | parses the text behind a byte order mark and ignores what follows the value |
| `JsonParser.EmptyNumberIff` | package/system/minui-list/parson/parson.c:1107-1120 | a number is accepted without consuming a byte exactly when no number follows its minus sign, and is then zero |
| `JsonParser.SignAloneIsZero` | package/system/minui-list/parson/parson.c:932-955 | a text that starts with such a sign is the number zero, whatever follows |
| `JsonParser.LoneMinusIsZero` | package/system/minui-list/parson/parson.c:1107-1120 | the one-byte text of a minus sign is the number zero |
| `JsonRoundTrip.TextParses` | package/system/minui-list/parson/parson.c:932-1129 | the printed form of a value anywhere in a text is read back as that value and no further, or refused when nested too deep |
| `JsonRoundTrip.FitsIffDepth` | package/system/minui-list/parson/parson.c:932-936 | what the parser's counter accepts is nesting depth at most the limit |
| `JsonRoundTrip.RoundTrip` | package/system/minui-list/parson/parson.c:1154-1363 | parsing the printed form, compact or pretty, returns the value with its member order exactly when its depth is at most the limit |
| `JsonRoundTrip.ParsedIsKeyed` | package/system/minui-list/parson/parson.c:932-1129 | every parsed value has distinct NUL-free keys throughout and fits the limit |
| `JsonRoundTrip.PrintableIff` | package/system/minui-list/parson/parson.c:1154-1296 | a value is one that prints and parses back when its keys are distinct and NUL-free and each number in it survives its own text |
| `JsonRoundTrip.ParseIsStable` | package/system/minui-list/parson/parson.c:1391-1399 | whatever text is accepted, if each number in its value survives its text, printing the value and parsing again gives the same value |
| `JsonRoundTrip.PrintThenParse` | package/system/minui-list/parson/parson.c:1848-1865 | the two serializer passes followed by the parser with its hash tables return the value |
| `JsonGrammar.SpacesIff` | package/system/minui-list/parson/parson.c:81-81 | the parser skips the white space of RFC 8259, vertical tabs, form feeds and nothing else |
| `JsonGrammar.TrailingCommaAccepted` | package/system/minui-list/parson/parson.c:1059-1068 | a text with a comma in front of the closing bracket is accepted |
| `JsonGrammar.RefusedNumbersIff` | package/system/minui-list/parson/parson.c:412-425 | of the numbers of section 6 of RFC 8259 the spelling rule refuses exactly those with an exponent right behind a zero |
| `JsonGrammar.AcceptedBeyondGrammar` | package/system/minui-list/parson/parson.c:412-425 | two spellings that pass the rule and are no numbers of the grammar |
| `JsonGrammar.DecodesIff` | package/system/minui-list/parson/parson.c:864-919 | the decoder accepts exactly the strings of section 7 of RFC 8259 whose escaped surrogates come in pairs |
| `Fdt.WalkBlob` | package/system/zlyme-preloader/preloader_image.py:147-185 | the loop lists path, name, position and data of every property, with its errors, of the structure block as sections 5.4 and 5.5 of the Devicetree Specification v0.4 lay it out; what the list is on a flattened tree, `FdtTree.WalkListsTree` states |
| `Binary.FieldsAreDigits` | package/system/zlyme-preloader/preloader_image.py:55-57 | big-endian words and little-endian words are the base-256 numbers of their bytes in that order |
| `Fdt.TokenStepMoves` | package/system/zlyme-preloader/preloader_image.py:147-185 | a token means the same at any other aligned position |
| `Fdt.WalkMoves` | package/system/zlyme-preloader/preloader_image.py:147-185 | a tail of the structure block that moves as a whole lists the same properties |
| `Fdt.ReplacedWalk` | package/system/zlyme-preloader/preloader_image.py:214-244 | walking a blob in which the data of one property is replaced, with padding, lists the same properties in order with only that data changed |
| `FdtTree.PathIsJoined` | package/system/zlyme-preloader/preloader_image.py:176-176 | a path is the nonempty names from the root down, each behind a slash, or one slash alone |
| `FdtTree.WalkListsTree` | package/system/zlyme-preloader/preloader_image.py:147-185 | a blob with any tree flattened in its structure block, NOP tokens anywhere, is walked without error and lists every property of the tree once, in document order, with its path, name and data |
| `FdtTree.WalkOfFlattened` | package/system/zlyme-preloader/preloader_image.py:147-185 | the same of the blob of header, structure and strings block that any sound tree flattens to |
| `BootOrder.SplitInverts` | package/system/zlyme-preloader/preloader_image.py:188-191 | splitting a NUL-terminated list loses nothing, and no part holds a NUL |
| `BootOrder.ListReadsBack` | package/system/zlyme-preloader/preloader_image.py:188-191 | every nonempty list of NUL-free UTF-8 texts is read from its own encoding, the empty list is refused |
| `BootOrder.RightSlotIff` | package/system/zlyme-preloader/preloader_image.py:202-211 | the slot is accepted exactly when one mmc1 alias is there and names it, its last status reads okay, and it is marked for the SPL |
| `BootOrder.ReplaceKeepsTree` | package/system/zlyme-preloader/preloader_image.py:214-244 | on a normal layout the edited blob lists the same tree with only the boot order replaced by the one slot, has the same strings block, differs in no header field but total size, strings offset and structure size, and keeps every byte in front of the property |
| `BootOrder.ReplaceSucceedsIff` | package/system/zlyme-preloader/preloader_image.py:214-244 | on a normal layout the edit succeeds exactly on the trees its opening checks accept |
| `BootOrder.SlotRefused` | package/system/zlyme-preloader/preloader_image.py:202-220 | a tree with a readable boot order that does not describe the slot so is refused, whatever its layout |
| `BootOrder.ReplaceTwice` | package/system/zlyme-preloader/preloader_image.py:202-244 | an edited blob has a good header and is refused when offered again |
| `BootOrder.PackInto` | package/system/zlyme-preloader/preloader_image.py:236-238 | one big-endian word is stored in place and nothing else changes |
| `BootOrder.RewriteBootOrder` | package/system/zlyme-preloader/preloader_image.py:214-244 | the in-place edit of the byte array computes the edited blob or its error |
| `Preloader.ParseImage` | package/system/zlyme-preloader/preloader_image.py:59-87 | succeeds exactly when size, magics, ranges and all four digests are good |
| `Preloader.PairedIff` | package/system/zlyme-preloader/preloader_image.py:59-102 | an image is accepted with a DDR and an SPL payload exactly when it has the size and both copies hold the magic, the two entries at their literal offsets with little-endian sector and count, the payloads where these say, and their digests |
| `Preloader.TreeIff` | package/system/zlyme-preloader/preloader_image.py:127-144 | a payload gives a tree exactly when it is the known executable, the tree, which says its own size, and zeros |
| `Preloader.TreeReadsBack` | package/system/zlyme-preloader/preloader_image.py:127-144 | a well-headed tree put into a payload is the tree read from it |
| `Preloader.ResealKeeps` | package/system/zlyme-preloader/preloader_image.py:268-273 | no byte outside the two SPL payloads and their two digests moves |
| `Preloader.ResealWrites` | package/system/zlyme-preloader/preloader_image.py:268-273 | both SPL payloads and both digests are the new ones, on a non-overlapping image |
| `Preloader.ResealedPairs` | package/system/zlyme-preloader/preloader_image.py:94-102 | the resealed image passes every check with the old DDR and the new SPL payload |
| `Preloader.DeriveSucceedsIff` | package/system/zlyme-preloader/preloader_image.py:255-279 | on a non-overlapping image the closing checks never fail: derivation succeeds exactly when the first half accepts |
| `Preloader.EditableIff` | package/system/zlyme-preloader/preloader_image.py:255-267 | with a normally laid out tree that comes down to the checks on the boot order |
| `Preloader.DeriveKeeps` | package/system/zlyme-preloader/preloader_image.py:255-279 | all entries verify, DDR payload and executable prefix are unchanged, the tree is the edited one, no byte outside the SPL payloads and digests moves, and a second derivation is refused |
| `Preloader.ResealInPlace` | package/system/zlyme-preloader/preloader_image.py:268-273 | the loop over the two SPL entries computes the resealed image |
| `Preloader.DeriveBytes` | package/system/zlyme-preloader/preloader_image.py:255-279 | computes the derivative, or the error that applies first |
| `Recovery.ManifestBinds` | package/system/zlyme-preloader/preloader_image.py:292-315 | a manifest made for a source and its derivative leads back to that source |
| `Recovery.DerivativeDiffers` | package/system/zlyme-preloader/preloader_image.py:255-279 | a source is never its own derivative |
| `Recovery.Lifecycle` | package/system/zlyme-preloader/preloader_image.py:382-433 | with the derivative live the state is recovery and armed, with the source live normal and ready |
| `Recovery.UnpreparedState` | package/system/zlyme-preloader/preloader_image.py:382-397 | without a manifest a sound image whose boot order does not raise is not prepared and has no backup, and its mode is normal exactly with the boot order of the source; every other image is an error |
| `Framer.ScanPartitions` | package/drivers/miyoo-flip-gamepad/src/miyoo-flip-gamepad.c:466-509 | every byte of a stream is in exactly one frame, discarded, or still open, in order; every frame has its two marks |
| `Framer.ScanSplits` | package/drivers/miyoo-flip-gamepad/src/miyoo-flip-gamepad.c:466-526 | scanning in two pieces with the open bytes carried over is scanning the whole |
| `Framer.Resynchronises` | package/drivers/miyoo-flip-gamepad/src/miyoo-flip-gamepad.c:473-508 | back-to-back frames without marks in their payload are all emitted and nothing of them is lost, whatever came before |
| `Framer.FrameBuffer.Feed` | package/drivers/miyoo-flip-gamepad/src/miyoo-flip-gamepad.c:466-509 | one byte through the in-place buffer is one step of the scan; the good frames and the start bytes that began none are counted |
| `Framer.FrameBuffer.Receive` | package/drivers/miyoo-flip-gamepad/src/miyoo-flip-gamepad.c:511-526 | a chunk is scanned behind what is buffered, with every byte, frame and false start counted once; a closed port ignores it |
| `Framer.FrameBuffer.SetPort` | package/drivers/miyoo-flip-gamepad/src/miyoo-flip-gamepad.c:532-573 | opening and closing drop what is buffered |
| `Framer.ReceiveAll` | package/drivers/miyoo-flip-gamepad/src/miyoo-flip-gamepad.c:511-526 | under any chunking the frames and the open bytes are those of one left-to-right scan of the stream |
| `Stick.ScaleMeans` | package/drivers/miyoo-flip-gamepad/src/miyoo-flip-gamepad.c:214-245 | under a valid calibration scaling is monotone, zero in the deadband, full at and beyond the ends, and in range |
| `Stick.ScaleRamps` | package/drivers/miyoo-flip-gamepad/src/miyoo-flip-gamepad.c:214-245 | between deadband and end each side is the linear ramp, rounded down: the report is the only integer that fits |
| `Stick.ScaleIsContinuous` | package/drivers/miyoo-flip-gamepad/src/miyoo-flip-gamepad.c:214-245 | one raw count moves the report by at most 32767 / (span - 2) + 1, and never backwards |
| `Stick.FactorBounds` | package/drivers/miyoo-flip-gamepad/src/miyoo-flip-gamepad.c:247-285 | the shrinking factor is at most one and its divisor is below 2^31 |
| `Stick.RadialShortens` | package/drivers/miyoo-flip-gamepad/src/miyoo-flip-gamepad.c:247-285 | no component is enlarged or changes sign, and no clamp ever acts |
| `Stick.AlongAxisRamp` | package/drivers/miyoo-flip-gamepad/src/miyoo-flip-gamepad.c:247-285 | along one axis the response between deadzone and rim is the linear ramp |
| `Stick.RadialMonotone` | package/drivers/miyoo-flip-gamepad/src/miyoo-flip-gamepad.c:247-285 | each reported component never decreases in that component, whatever the other one is |
| `Stick.RadialRamps` | package/drivers/miyoo-flip-gamepad/src/miyoo-flip-gamepad.c:247-285 | between deadzone and rim both components are scaled by the same fraction of the radius, rounded towards zero |
| `Stick.RadialSwaps` | package/drivers/miyoo-flip-gamepad/src/miyoo-flip-gamepad.c:247-285 | both axes are treated alike |
| `BootCenter.SortIsSort` | package/drivers/miyoo-flip-gamepad/src/miyoo-flip-gamepad.c:190-207 | the sort behind the median orders the samples and loses none |
| `BootCenter.InsertAt` | package/drivers/miyoo-flip-gamepad/src/miyoo-flip-gamepad.c:197-204 | the inner loop inserts in place and leaves the rest alone |
| `BootCenter.ComputeMedian` | package/drivers/miyoo-flip-gamepad/src/miyoo-flip-gamepad.c:190-207 | the in-place insertion sort returns the middle element of the sorted samples |
| `BootCenter.MedianIsMiddle` | package/drivers/miyoo-flip-gamepad/src/miyoo-flip-gamepad.c:190-207 | at least half of the samples are at or below the median and at least half at or above it |
| `BootCenter.WindowStable` | package/drivers/miyoo-flip-gamepad/src/miyoo-flip-gamepad.c:327-342 | stable exactly when all samples are within the spread of each other; then with the median |
| `BootCenter.StableAroundMedian` | package/drivers/miyoo-flip-gamepad/src/miyoo-flip-gamepad.c:327-342 | every sample of a stable window is within the spread of its median |
| `Gamepad.ReachableIsCalibrated` | package/drivers/miyoo-flip-gamepad/src/miyoo-flip-gamepad.c:356-463 | in every reachable state both centres of every axis lie strictly inside its range with both sides longer than the deadband |
| `Gamepad.RejectedWriteIsNothing` | package/drivers/miyoo-flip-gamepad/src/miyoo-flip-gamepad.c:1074-1106 | a write is stored exactly when both axes pass; any other changes neither axis |
| `Gamepad.ReportsStayInRange` | package/drivers/miyoo-flip-gamepad/src/miyoo-flip-gamepad.c:287-310 | no run reports a value outside -32767 to 32767 |
| `Gamepad.ReportsAreCurrent` | package/drivers/miyoo-flip-gamepad/src/miyoo-flip-gamepad.c:287-310 | after every run each stick reports the two samples of the last frame, each scaled by the calibration in force, under the last accepted deadzone of that stick |
| `Gamepad.RunForward` | package/drivers/miyoo-flip-gamepad/src/miyoo-flip-gamepad.c:344-463 | finished boot states are never left and the phase only moves forward |
| `Gamepad.ApplyIsAuthoritative` | package/drivers/miyoo-flip-gamepad/src/miyoo-flip-gamepad.c:1020-1038 | after an apply no frame, restore or deadzone write changes the runtime centre of that axis |
| `Gamepad.ApplySets` | package/drivers/miyoo-flip-gamepad/src/miyoo-flip-gamepad.c:1020-1106 | an accepted apply saves the calibration of both axes, sets both runtime centres to it, ends their boot acquisition and leaves the other stick alone |
| `Gamepad.RestoreSets` | package/drivers/miyoo-flip-gamepad/src/miyoo-flip-gamepad.c:1020-1038 | an accepted restore saves the calibration of both axes and sets the runtime centres unless an apply or the boot has set them; boot acquisition and other stick are left alone |
| `Gamepad.SettlingEnds` | package/drivers/miyoo-flip-gamepad/src/miyoo-flip-gamepad.c:381-403 | the first frame starts the settling phase, which ends on the first frame 1500 ms after it |
| `Gamepad.BudgetEndsCollection` | package/drivers/miyoo-flip-gamepad/src/miyoo-flip-gamepad.c:405-463 | a frame in the collecting phase past the budget finishes all four axes and the phase |
| `Gamepad.AcceptanceIsConfirmed` | package/drivers/miyoo-flip-gamepad/src/miyoo-flip-gamepad.c:408-456 | when a run makes an axis accept a boot centre, its last 62 frames were two stable windows whose medians agree within 2, the centre is the later median, and every sample is within 5 of it |
| `Gamepad.AcceptsIff` | package/drivers/miyoo-flip-gamepad/src/miyoo-flip-gamepad.c:408-456 | within the budget a collecting axis accepts exactly on the frame that completes a window behind one that waits to be confirmed, when both are stable, their medians agree and the later one is a possible centre |
| `GamepadDriver.NoteSample` | package/drivers/miyoo-flip-gamepad/src/miyoo-flip-gamepad.c:408-456 | the branching body for one axis computes the step of the state machine |
| `GamepadDriver.PadDriver.NoteBoot` | package/drivers/miyoo-flip-gamepad/src/miyoo-flip-gamepad.c:371-463 | the loops over the axis array compute the step of the state machine |
| `GamepadDriver.PadDriver.Emit` | package/drivers/miyoo-flip-gamepad/src/miyoo-flip-gamepad.c:287-299 | the two reports of the stick, and no other, become the scaled and shrunk values |
| `GamepadDriver.PadDriver.Feed` | package/drivers/miyoo-flip-gamepad/src/miyoo-flip-gamepad.c:466-509 | a byte that completes a frame drives the state machine with its payload, any other leaves it alone |
| `GamepadDriver.PadDriver.Store` | package/drivers/miyoo-flip-gamepad/src/miyoo-flip-gamepad.c:1074-1106 | a calibration write changes both axes of its stick or nothing |
| `GamepadDriver.PadDriver.StoreDeadzone` | package/drivers/miyoo-flip-gamepad/src/miyoo-flip-gamepad.c:1160-1181 | a deadzone write in range sets that stick's deadzone and republishes it, any other changes nothing |
| `GamepadDriver.PadDriver.Receive` | package/drivers/miyoo-flip-gamepad/src/miyoo-flip-gamepad.c:511-526 | a closed port ignores the byte |
| `GamepadDriver.FrameIsRead` | package/drivers/miyoo-flip-gamepad/src/miyoo-flip-gamepad.c:466-494 | on an open line between frames the six bytes of a frame with any four samples are one frame event, each stick sending its y first |
| `GamepadDriver.Drive` | package/drivers/miyoo-flip-gamepad/src/miyoo-flip-gamepad.c:466-573 | after any interleaving of bytes, times, calibration and deadzone writes and the port being opened and closed, the driver is the state machine after the events they amount to, calibrated and in range |
| `DmcFreq.TargetSafeIff` | package/drivers/rk3568-dmc/src/rk3568_dmc.c:234-306 | from a covered state a target call keeps the supply at or above the need of each possible rate at every point, under all outcomes, exactly when it does not raise to an operating point that needs less than a possible rate |
| `DmcFreq.RecordSafeIff` | package/drivers/rk3568-dmc/src/rk3568_dmc.c:234-306 | knowing only the recorded rate and voltage, a target call is safe in every covered state and under all outcomes exactly when it does not raise, or no rate that the recorded voltage covers needs more than the target |
| `DmcFreq.TargetSafeFromTruth` | package/drivers/rk3568-dmc/src/rk3568_dmc.c:234-306 | from a true and covered record, every intermediate point and exit of a target call is covered, failures included |
| `DmcFreq.SuspendSafe` | package/drivers/rk3568-dmc/src/rk3568_dmc.c:363-449 | every point and exit of a suspend call is covered, failures included |
| `DmcFreq.RecordIsLastAccepted` | package/drivers/rk3568-dmc/src/rk3568_dmc.c:234-449 | over every run the recorded voltage is the last one the regulator accepted |
| `DmcFreq.RunSafe` | package/drivers/rk3568-dmc/src/rk3568_dmc.c:234-449 | over every run in which no started rise fails, every point of every call is covered |
| `DmcFreq.RunSafeByRecord` | package/drivers/rk3568-dmc/src/rk3568_dmc.c:234-449 | a caller that checks the record before every target call has a run that is covered at every point, whatever fails |
| `DmcFreq.RunSafeIff` | package/drivers/rk3568-dmc/src/rk3568_dmc.c:234-449 | a list of requests is covered at every point under all outcomes exactly when no outcomes lead to a target request at risk |
| `DmcFreq.FailedRiseThenUnsafe` | package/drivers/rk3568-dmc/src/rk3568_dmc.c:257-280 | a run in which a smaller rise after a failed one lowers the supply under a possible rate |
| `DmcFreq.TargetArrives` | package/drivers/rk3568-dmc/src/rk3568_dmc.c:234-306 | when all outcomes are good a target call to another rate ends at that rate with supply and recorded voltage at what its operating point needs |
| `DmcFreq.SuspendArrives` | package/drivers/rk3568-dmc/src/rk3568_dmc.c:363-449 | so does a suspend call, at the boot rate and voltage |
| `DmcFreq.GoodRun` | package/drivers/rk3568-dmc/src/rk3568_dmc.c:234-449 | over a run of good outcomes the DDR is at the rate asked for last and the supply at exactly what that rate needs |
| `DmcFreq.Driver.WaitComplete` | package/drivers/rk3568-dmc/src/rk3568_dmc.c:131-179 | fails exactly when the interrupt does not come in time or the controller reports an error |
| `DmcFreq.Driver.SetRate` | package/drivers/rk3568-dmc/src/rk3568_dmc.c:181-230 | passes through exactly the points of a rate change, and counts as started whenever it fails |
| `DmcFreq.Driver.Settle` | package/drivers/rk3568-dmc/src/rk3568_dmc.c:284-302 | the end of both calls: the voltage is lowered if it is to be, and rate and voltage recorded; fails exactly on a refused lowering, with the rate recorded |
| `DmcFreq.Driver.TargetRate` | package/drivers/rk3568-dmc/src/rk3568_dmc.c:234-306 | passes through exactly the points of a target call; fails exactly without an operating point, on a refused raise, a failed rate change or a refused lowering; on good outcomes ends at the target and the voltage it needs; without an operating point nothing changes |
| `DmcFreq.Driver.SuspendTo` | package/drivers/rk3568-dmc/src/rk3568_dmc.c:363-449 | the same for suspend, which goes by the recorded voltage and ends at the boot rate and voltage |
| `ProcTable.EventKeepsWellFormed` | package/system/nextui/zlyme/zlyme-pak-spawn.c:222-227 | every event keeps a PID that names a session with the leader that made it |
| `ProcTable.EventIsLater` | package/system/nextui/zlyme/zlyme-pak-spawn.c:222-227 | after an event whoever is there was born by it or was there, zombies stay zombies, a session is left only for a new one, ended sessions stay ended |
| `ProcTable.RunKeeps` | package/system/nextui/zlyme/zlyme-pak-spawn.c:298-301 | the same over any run of events by other processes; the supervisor and its unreaped child stay in the table |
| `ProcTable.SessionIsUnique` | package/system/nextui/zlyme/zlyme-pak-spawn.c:222-245 | a process with the session number belongs to that session exactly while anything of the session is left |
| `ProcTable.SessionNumberReused` | package/system/nextui/zlyme/zlyme-pak-spawn.c:298-301 | a run of events after which the number of an ended session names another whose leader has gone |
| `ProcTable.StaysOutside` | package/system/nextui/zlyme/zlyme-pak-spawn.c:184-194 | a process outside the session of the supervisor cannot get into it |
| `PakLog.MemberBefore` | package/system/nextui/zlyme/zlyme-pak-spawn.c:247-307 | a live member that existed at an earlier moment was a live member then |
| `PakLog.HonestGrows` | package/system/nextui/zlyme/zlyme-pak-spawn.c:329-370 | a log stays honest: its tables follow each other, its acts say what their tables showed, and every signal in it is allowed |
| `PakLog.FoundWereRead` | package/system/nextui/zlyme/zlyme-pak-spawn.c:282-294 | whoever a scan lists was read during it as a live member of the session |
| `PakLog.ScanCloses` | package/system/nextui/zlyme/zlyme-pak-spawn.c:298-306 | the closing read of the leader completes a scan that lists every live member present from its start |
| `PakLog.SignalsAreAllowed` | package/system/nextui/zlyme/zlyme-pak-spawn.c:329-370 | every verified signal hit exactly an incarnation that had been read as a process of the pak's session, outside the supervisor's own session, and in the pak's session or one of its own unless nothing was left of the pak's; every signal by PID hit the child |
| `PakLog.HeldSignalsStayInPak` | package/system/nextui/zlyme/zlyme-pak-spawn.c:471-486 | while the child is there or is collected only later, every verified signal hits a process of the pak's session or one that left it for a session of its own |
| `PakLog.StrangerIsHit` | package/system/nextui/zlyme/zlyme-pak-spawn.c:372-402 | an honest log in which, after the child was collected, a whole scan lists a stranger and the signal hits it |
| `PakLog.SlipMeans` | package/system/nextui/zlyme/zlyme-pak-spawn.c:339-350 | a process reported as slipped away was gone, dead or changed in group or session at that moment |
| `PakLog.EmptyScanMeans` | package/system/nextui/zlyme/zlyme-pak-spawn.c:404-414 | after a scan that found nobody only processes born while it ran are left |
| `PakLog.EmptyScanIsFinal` | package/system/nextui/zlyme/zlyme-pak-spawn.c:404-436 | if it left nobody and the leader is gone, the session never has a live process again |
| `PakLog.SettledIff` | package/system/nextui/zlyme/zlyme-pak-spawn.c:664-668 | after the wait that ended the waiting, the cleanup has succeeded exactly when nothing failed since and the log ends with a whole scan that found nobody |
| `PakLog.GracefulRounds` | package/system/nextui/zlyme/zlyme-pak-spawn.c:404-436 | a round of SIGTERM followed after all its pauses by one of SIGKILL kills nobody before the full grace |
| `PakLog.KillsGraced` | package/system/nextui/zlyme/zlyme-pak-spawn.c:456-491 | once the pak was asked to stop and given its 30 polls of grace, every later SIGKILL is a graced one |
| `PakLog.MannersGoOn` | package/system/nextui/zlyme/zlyme-pak-spawn.c:438-491 | a log whose two parts are paced, each fruitless poll of the child followed by a pause, and kill nobody ungraced is such a log as a whole |
| `PakSpawn.ChildStatusMeans` | package/system/nextui/zlyme/zlyme-pak-spawn.c:526-541 | no status is reported as 125; other exit codes are passed on and a killing signal as 128 more |
| `PakSpawn.FailureCodeIff` | package/system/nextui/zlyme/zlyme-pak-spawn.c:543-670 | a run that is over returns 125 exactly when the child, if it was never heard of, was not collected, or else the cleanup did not end with a whole scan that found nobody and no failed call after the wait |
| `PakSpawn.Supervisor.constructor` | package/system/nextui/zlyme/zlyme-pak-spawn.c:543-566 | any well-formed table with the supervisor in a session of it is a start |
| `PakSpawn.Supervisor.Others` | package/system/nextui/zlyme/zlyme-pak-spawn.c:222-227 | any number of foreign events between two system calls leaves a later table and the log honest |
| `PakSpawn.Supervisor.ReadInfo` | package/system/nextui/zlyme/zlyme-pak-spawn.c:148-177 | 1 with the entry the table shows at that moment, 0 when there is none, -1 on errors and for no PID |
| `PakSpawn.Supervisor.OwnSession` | package/system/nextui/zlyme/zlyme-pak-spawn.c:184-194 | true exactly for init and below, the session of the supervisor and its group |
| `PakSpawn.Supervisor.LeaderSessionState` | package/system/nextui/zlyme/zlyme-pak-spawn.c:228-245 | one read decides: 1 exactly for the live recorded incarnation leading its session and group, not negative exactly when the PID is free or shows that incarnation leading or dead |
| `PakSpawn.Supervisor.EndOfDirectory` | package/system/nextui/zlyme/zlyme-pak-spawn.c:270-276 | a listing that ends without an error has returned every process present all along |
| `PakSpawn.Supervisor.ScanOne` | package/system/nextui/zlyme/zlyme-pak-spawn.c:277-294 | a name contributes its process exactly when that is a live member at the moment it is read |
| `PakSpawn.Supervisor.ScanNames` | package/system/nextui/zlyme/zlyme-pak-spawn.c:264-297 | the list is exactly the live members read during the scan, in order, and has every live member that was there from its start |
| `PakSpawn.Supervisor.ScanDirectory` | package/system/nextui/zlyme/zlyme-pak-spawn.c:261-306 | success is one whole scan and nothing else; failure ends with a fault or a read of a conflict about the leader's PID |
| `PakSpawn.Supervisor.CollectMembers` | package/system/nextui/zlyme/zlyme-pak-spawn.c:247-307 | the same behind the first check of the leader; never for the supervisor's own session |
| `PakSpawn.Supervisor.SessionBusy` | package/system/nextui/zlyme/zlyme-pak-spawn.c:309-320 | 0 exactly after a whole scan that read nobody, 1 after one that read somebody, -1 as the scan |
| `PakSpawn.Supervisor.PidfdOpen` | package/system/nextui/zlyme/zlyme-pak-spawn.c:343-345 | a handle on the incarnation that has the PID at that moment |
| `PakSpawn.Supervisor.SendTo` | package/system/nextui/zlyme/zlyme-pak-spawn.c:351-357 | the signal reaches the incarnation of the handle, allowed as it is, or nobody |
| `PakSpawn.Supervisor.SameIncarnation` | package/system/nextui/zlyme/zlyme-pak-spawn.c:343-350 | the second read shows that the handle is on the expected incarnation |
| `PakSpawn.Supervisor.SignalVerified` | package/system/nextui/zlyme/zlyme-pak-spawn.c:329-370 | 1 exactly when the last call sent the signal to the expected incarnation, 0 exactly when it showed that the process had slipped away, -1 exactly when it failed; nothing else is sent |
| `PakSpawn.Supervisor.SignalAll` | package/system/nextui/zlyme/zlyme-pak-spawn.c:395-399 | unless a call failed, and then this is reported, every listed member was sent the signal or seen to have slipped away |
| `PakSpawn.Supervisor.SignalLeader` | package/system/nextui/zlyme/zlyme-pak-spawn.c:380-392 | the leader was read as absent or dead, or handled as what it was read to be; no further after a conflict |
| `PakSpawn.Supervisor.SignalSession` | package/system/nextui/zlyme/zlyme-pak-spawn.c:372-402 | 0 only after a whole round: the leader, a whole scan, and everybody it listed; -1 only when a call failed or the log ends with a conflict; no other signal |
| `PakSpawn.Supervisor.PollSession` | package/system/nextui/zlyme/zlyme-pak-spawn.c:417-424 | 0 right after a scan that read nobody; 1 only after all its pauses and a last scan that read somebody |
| `PakSpawn.Supervisor.ReapGently` | package/system/nextui/zlyme/zlyme-pak-spawn.c:404-424 | reap_session up to the end of the grace |
| `PakSpawn.Supervisor.ReapSession` | package/system/nextui/zlyme/zlyme-pak-spawn.c:404-436 | 0 exactly when no call failed and the log ends right after a whole scan that read no live member; -1 only on a failed call, a conflict, or when a round of SIGKILL and all 40 pauses have not emptied the session; nobody is killed before the full grace, and every poll is paced |
| `PakSpawn.Supervisor.WaitPid` | package/system/nextui/zlyme/zlyme-pak-spawn.c:443-450 | collects only the child, only as a zombie of its own incarnation, and only then gives up its PID |
| `PakSpawn.Supervisor.WaitChildBounded` | package/system/nextui/zlyme/zlyme-pak-spawn.c:438-454 | 1 exactly when the child was collected; nothing but waits and pauses; every poll that finds the child running is directly followed by a pause, and 0 means that as many pauses and interrupted waits as polls were made |
| `PakSpawn.Supervisor.Kill` | package/system/nextui/zlyme/zlyme-pak-spawn.c:460-466 | a signal by PID to the unreaped child reaches the child |
| `PakSpawn.Supervisor.WaitAfterKill` | package/system/nextui/zlyme/zlyme-pak-spawn.c:465-468 | gives up on the child only after SIGKILL and all the waits there are, or a failed call |
| `PakSpawn.Supervisor.KillChild` | package/system/nextui/zlyme/zlyme-pak-spawn.c:465-468 | only after the full grace; 0 exactly when the child was collected, otherwise with a recorded excuse; at most 10 more pauses |
| `PakSpawn.Supervisor.StopChildBounded` | package/system/nextui/zlyme/zlyme-pak-spawn.c:456-469 | SIGTERM first; 0 exactly when the child was collected; otherwise with a recorded excuse; at most 40 pauses; SIGKILL only after the full grace |
| `PakSpawn.Supervisor.KillAndWait` | package/system/nextui/zlyme/zlyme-pak-spawn.c:479-485 | a whole round of SIGKILL was made, unless a call failed or a conflict was read, and the child was collected or given up on as above |
| `PakSpawn.Supervisor.StopLeader` | package/system/nextui/zlyme/zlyme-pak-spawn.c:471-487 | the same for the round of SIGTERM and the wait after it |
| `PakSpawn.Supervisor.StopSessionBounded` | package/system/nextui/zlyme/zlyme-pak-spawn.c:471-491 | 0 exactly when the child was collected and after that, without a failed call, the log ends with a whole scan that found nobody; otherwise with a recorded excuse; at most 80 pauses; every SIGKILL comes after SIGTERM and 30 polls, each slept or interrupted |
| `PakSpawn.Supervisor.ForkChild` | package/system/nextui/zlyme/zlyme-pak-spawn.c:567-574 | the child is an incarnation never used before, under a PID that names no session or group |
| `PakSpawn.Supervisor.ReadIdentity` | package/system/nextui/zlyme/zlyme-pak-spawn.c:575-610 | an identity is accepted only from a child that leads its own session, and is its start time |
| `PakSpawn.Supervisor.NoIdentity` | package/system/nextui/zlyme/zlyme-pak-spawn.c:608-623 | after a failed handshake 127 exactly when the child was collected, else 125 with a recorded excuse |
| `PakSpawn.Supervisor.StopAnd` | package/system/nextui/zlyme/zlyme-pak-spawn.c:625-653 | the given code exactly when the session was settled, else 125 with a recorded excuse |
| `PakSpawn.Supervisor.Finish` | package/system/nextui/zlyme/zlyme-pak-spawn.c:664-669 | the status that the wait left exactly when the session was settled, else 125 with a recorded excuse |
| `PakSpawn.Supervisor.Supervise` | package/system/nextui/zlyme/zlyme-pak-spawn.c:644-670 | the waiting loop ends as Run states |
| `PakSpawn.Supervisor.Run` | package/system/nextui/zlyme/zlyme-pak-spawn.c:543-670 | over a whole run the exit code is the one the log calls for: 125 exactly for failed cleanup, and then with an excuse in the log (a failed call, a conflict about the leader's PID, a child that outlived SIGKILL and all waits, or a session that outlived a round of SIGKILL and all pauses); the collected status only after a settled session; every signal in the log is allowed; at most 80 pauses; every SIGKILL, to the session or to the child, comes after SIGTERM was tried on the same and 30 pauses or interrupted waits have passed since |
| `LidPolicy.RunIsSound` | package/system/zlyme-keylidmon/lid_policy.h:44-118 | over every run at most one lid suspend between two opens, asleep implies closed, and mem_requests plus busy is lid_requests plus power_requests |
| `LidPolicy.GrantIsFree` | package/system/zlyme-keylidmon/lid_policy.h:44-95 | no suspend under the guard, while busy or while the menu owns the screen; a lid suspend only on a closed lid, awake and inside a pak |
| `LidPolicy.HistoryTells` | package/system/zlyme-keylidmon/lid_policy.h:44-118 | over every run the flags are what the history says: who had the screen last, whether the lid was last seen shut, whether a suspend ended since it was shut, whether one is running |
| `LidPolicy.GrantedIffDue` | package/system/zlyme-keylidmon/lid_policy.h:44-95 | a suspend is granted exactly when the history makes it due: no guard, none running, and the power key outside the menu, the lid closed inside a pak not yet slept, or a pak entered from the menu with the lid shut and not yet slept |
| `LidPolicy.MonitorIsRun` | package/system/zlyme-keylidmon/zlyme-keylidmon.c:148-198 | the event loop only makes such runs, and between two events nothing is busy |
| `LidPolicy.SuspendsAreApart` | package/system/zlyme-keylidmon/zlyme-keylidmon.c:148-186 | two suspends are at least the guard apart, counted from the end of the first |
| `LidPolicy.SuspendsIff` | package/system/zlyme-keylidmon/zlyme-keylidmon.c:148-198 | the monitor suspends exactly when its history makes a suspend due and 1000 ms have passed since the last one ended, as far as the clock can tell |
| `LidPolicy.LidState.Apply` | package/system/zlyme-keylidmon/lid_policy.h:44-95 | the field updates of one event, tied to the policy function over whose runs the invariants are proved |
| `LidPolicy.LidState.Observe` | package/system/zlyme-keylidmon/lid_policy.h:97-109 | the same for a switch sample |
| `LidPolicy.LidState.Finish` | package/system/zlyme-keylidmon/lid_policy.h:111-118 | the same for the end of a suspend |
| `LidPolicy.Watch` | package/system/zlyme-keylidmon/zlyme-keylidmon.c:158-198 | the loop over the state object counts the suspends of the monitor run and keeps its guard time |
| `ListNav.SearchAhead` | package/system/minui-list/src/list_nav.c:81-122 | the first selectable row with another letter |
| `ListNav.SearchBehind` | package/system/minui-list/src/list_nav.c:20-79 | the start of the group of the last selectable row with another letter |
| `ListNav.NextLetterIndex` | package/system/minui-list/src/list_nav.c:81-122 | the two searches compute the next index, for every selection and list |
| `ListNav.PrevLetterIndex` | package/system/minui-list/src/list_nav.c:20-79 | the nested searches compute the previous index, for every selection and list |
| `ListNav.LettersFoldCase` | package/system/minui-list/src/list_nav.c:13-18 | two named rows are of one letter exactly when their first bytes are equal but for the case of a letter |
| `ListNav.NextIsNextHead` | package/system/minui-list/src/list_nav.c:81-122 | on a grouped list, next-letter goes from any row of a group to the head of the next group, cyclically |
| `ListNav.PrevIsPrevHead` | package/system/minui-list/src/list_nav.c:20-79 | and prev-letter to the head of the group before |
| `ListNav.NextAndPrevAreInverse` | package/system/minui-list/src/list_nav.c:20-122 | on group heads the two undo each other |
| `ListNav.ForwardWalksHeads` | package/system/minui-list/src/list_nav.c:81-122 | any number of steps forward stands on the head that many groups further, modulo the number of groups |
| `ListNav.ForwardReturns` | package/system/minui-list/src/list_nav.c:81-122 | next-letter is back at its head exactly after the multiples of the number of groups |
| `ListNav.ForwardVisits` | package/system/minui-list/src/list_nav.c:81-122 | and visits every group head on the way |

## Left out

- parson memory: allocation succeeds, buffers are not freed, parent pointers are reduced to whether a value has one.
- parson numbers: formatting and strtod are any pair of functions on bit patterns; a round trip is assumed only of the numbers in the value at hand, and of strtod only that it reads nothing exactly when there is no number.
- JsonText.Serialize: keys are byte strings, so one with an embedded NUL, which no object of the source can hold, is printed whole where the source would stop at it; the -1 results for values of no type and for failed number formatting have no counterpart.
- JsonParser: the comparison with RFC 8259 is made for white space, separators, numbers and strings, one by one, and not for whole texts.
- parson integer widths: item_capacity and the int lengths of the serializer are mathematical integers.
- parson comments, files, dotted names, typed getters and setters, deep copy, equality and schema validation: forwarding, or easier than what is here.
- SHA-256: any function to 32 bytes, so nothing is claimed about collisions.
- Recovery: the manifest is a document already read, and the file system a map from paths to bytes; writing, atomic renames and the command line are not modelled.
- BootOrder.ReplaceKeepsTree: takes the normal layout (aligned structure block, strings block right behind it and ending the blob) as a precondition; on other layouts the source makes no promise.
- Preloader.DeriveKeeps: takes payload ranges and digest fields that do not overlap as a precondition, because the source does not check it.
- Gamepad: buttons, rumble, seen_min and seen_max, sysfs text and the tokenising of a write (its numbers are taken as read), failures to open the port, and jiffies wrap-around; time is a natural number per event.
- DmcFreq: shared memory words, the SMC interface, devfreq load reporting, probe and operating point tables; the supply is the last accepted request, need is any function non-decreasing in the rate, and a failed rate change leaves the old or the requested rate.
- PakSpawn: the text of /proc/<pid>/stat, pipes, signal handlers and the leader file are success or failure; the pair of PID and start time is taken never to repeat, which is what the source rests on.
- PakSpawn.Supervisor.EndOfDirectory: takes from the kernel that a process present from opendir to the end of the directory is listed; a listing without it counts as one that ended with an error.
- PakSpawn.Supervisor.Run: a run of the waiting loop is as long as its interrupted waits, so still waiting is an ending of its own; liveness is not stated. 127 for a waitpid error other than EINTR and ECHILD comes without a cleanup, as in the source.
- PakSpawn.Supervisor.ReapSession: a process born during the last scan is not excluded at return, because the source cannot exclude it; EmptyScanIsFinal says when nobody is left.
- LidPolicy: radios, governor commands, keys, volume, brightness and the input devices.
- ListNav: lists that are not grouped by letter have no round-trip theorem; the computed indices are specified for them too.
- User interface, drawing, themes, hints, keyboard, filtering, scrolling and preferences of the list and presenter programs.
- Release publishing, image and branding scripts, HDMI modes and the remaining system scripts.
