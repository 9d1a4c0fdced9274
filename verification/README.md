# Kubos: wire formats, lists and packet handling, modelled in Dafny

What three libraries inside the KubOS flight software do with bytes, links and buffers, and the
properties they are relied on for.

- **TinyCBOR.** The encoder writes into a caller's buffer and, once that is full, counts what is
  missing through the same union; nested encoders hand position or count back when they close.
  The parser is an iterator over untrusted bytes.  The two are tied together by a reference
  grammar of RFC 7049 that neither is defined by: `CborNumber`, `CborGrammar`, `CborCursor`
  (specification of each parser call as a function of the iterator's state), `CborParser` (the
  calls in place, proved against it), `CborReading` (parser against grammar, both directions),
  `CborLenient` (parser and reader against a relaxed grammar, on arbitrary bytes),
  `CborStrings`, `CborMap`, `CborMapFind`, `CborEncoder`, `CborScript` (whole encodings, byte
  accounting, item to buffer to item), `CborIntegers`, `CborToText` (base 16 and 64 in one
  array), `CborPretty` (the second UTF-8 decoder).
- **ccan/json.** `Utf8`, `JsonString`, `Json`, `JsonRoundTrip` state what is printed and read and
  prove when a value comes back; `JsonText` is a grammar that generates JSON texts without the
  reader, `JsonReads` and `JsonDerived` show that exactly these are read, each as its value; `JsonBuffer` and `JsonParser` are the loops, buffers and cursors,
  from and to linked trees of nodes; `JsonTree` says what value a tree stands for; `JsonNodes`
  is the relinking, `JsonCheck` the check that walks a tree, on heaps with arbitrary links,
  `JsonEdits` runs of edits and the check after them, `JsonAccept` the way from text to tree to text.
- **utlist.** `MergeSort` is the bottom-up merge sort on sequences; `Utlist` sorts the three kinds
  of linked list in place; `UtlistLinks` holds the macros that add, replace, take out and join.
- **libcsp.** `Crc32Table`, `Crc32` (table against bit-by-bit definition, what damage is always
  noticed), `Sfp` (fragmentation over a lossy channel), `CspPlaces`, `CspConns`, `CspNode` (buffer
  pool, router, connection table and ports as one state machine: the constructor establishes the
  invariants, `Do` keeps them over any call, `Run` and `RunFromStart` over any sequence of calls),
  `CspExchange` (request and answer between two nodes, from `csp_connect` to the last `csp_read`).

Where the code does not do what it promises, the model keeps the code and says exactly when:

- simple value 24 is encoded but not parsed (`CborScript.SimpleValueRoundTrip`);
- U+001F is printed unescaped but not read (`JsonString.ParseUndoesEmit`, `JsonRoundTrip.RoundTripIff`);
- one-octet SFP fragments can lose the first octet unnoticed (`Sfp.SoundExactly`);
- `csp_connect` never tries the port it gave out last, and its search does not end when it starts at
  the lowest ephemeral port and every ephemeral port is in use (`CspNode.Node.FindPort`,
  `CspConns.SearchNeverEnds`; `CspConns.FewConnections` shows the default table size is safe);
- an indefinite map may be closed after a key, for advancing and for reading, and a tag may stand in
  front of a break, for advancing alone: what exactly is taken of arbitrary bytes, and when that is
  not what RFC 7049 allows, say `CborLenient.AdvanceExactly`, `CborLenient.WalkTakesMalformedExactly`
  and `CborLenient.ReaderAcceptsExactly`;
- `json_check` does not end on a node that is its own descendant with every link in place, which
  `json_append_element` can make; it ends on every other heap (`JsonCheck.EndsExactly`,
  `JsonEdits.AppendParent`);
- the answer to a broadcast comes from another address than the client's connection sends to and is
  not delivered to it (`CspConns.AnswerHits`);
- `csp_sfp_send` with an mtu of 0 sends empty fragments until sending fails (`Sfp.Send`);
- `cbor_encoder_close_container_checked` reports no error for a definite container that did not
  fit, not the one earlier calls gave (`CborEncoder.Encoder.CloseContainerChecked`);
- `csp_sfp_recv_fp` keeps a packet without the fragment flag (`Sfp.Recv`).

## Conventions

An octet is an integer below 256 and a buffer an array or sequence of them; `size_t` has 64 bits,
`int` 32, `uint8_t` and `uint16_t` counters wrap where the code lets them.  A C string is its
octets; the NUL stands behind the last.  Pointers are an array and an index.  Floating-point
numbers are bit patterns in CBOR and number texts in JSON.

## Model

| member | source | states |
|---|---|---|
| CborNumber.ExtractUndoesHead | tinycbor/src/extract_number_p.h:53-78 | the decoder reads back every number the encoder writes as an initial byte and argument, wherever it stands in the buffer, and stops right behind it |
| CborNumber.HeadIsShortest | tinycbor/src/cborencoder.c:278-305 | the head the encoder chooses is the shortest of those the decoder reads as that number |
| CborNumber.ExtractNumber | tinycbor/src/extract_number_p.h:53-78 | the decoded number fits the width its initial byte announces, the cursor moves behind it and never past the end; otherwise the error says why |
| CborNumber.OctetsBehind | tinycbor/src/extract_number_p.h:53-78 | in numbers: exactly one, two, four or eight octets are taken behind additional information 24, 25, 26 and 27, counted by their places, and 28 to 31 are refused |
| CborNumber.OctetsOfHead | tinycbor/src/cborencoder.c:278-305 | in numbers: the five forms a head has, initial byte and one, two, four or eight octets, with the range of each |
| CborGrammar.ParseUndoesEnc | tinycbor/src/cborencoder.c:278-538 | the reference grammar of RFC 7049, sections 2.1 to 2.4, reads every encoded item back, whatever follows it |
| CborGrammar.ParseUndoesEncAll | tinycbor/src/cborencoder.c:278-538 | so it reads back a run of items, counted or up to the break |
| CborGrammar.InitialBytes | tinycbor/src/cborencoder.c:307-538 | the initial byte of every kind of item as a number, the two ends of indefinite containers included |
| CborCursor.PreparseNext | tinycbor/src/cborparser.c:256-273 | after a success an iterator is exhausted exactly when its type is invalid, and moves over nothing but a break |
| CborCursor.ValidUnique | tinycbor/src/cborparser.c:170-254 | position and remaining count determine everything else in a valid iterator |
| CborCursor.ExtractInt64IsArgument | tinycbor/tinycbor/cbor.h:258-262 | the 16-bit cache and the slow path give the same number: the argument in the stream |
| CborCursor.AdvanceToEnd | tinycbor/src/cborparser.c:416-424 | walking to the end of a container terminates on arbitrary bytes and, on success, ends exhausted with the invariant kept |
| CborCursor.SkipTag | tinycbor/src/cborparser.c:478-486 | skipping tags ends on something that is no tag, on arbitrary bytes |
| CborParser.CborValue.ParserInit | tinycbor/src/cborparser.c:325-334 | in place: the iterator stands on the first item of the buffer, or the error says why there is none |
| CborParser.CborValue.PreparseValue | tinycbor/src/cborparser.c:170-254 | in place: the initial byte is decoded into type, flags and cached argument, every error and field as specified, reading only inside the buffer |
| CborParser.CborValue.PreparseSimpleValue | tinycbor/src/cborparser.c:205-241 | its branch for simple values and floating-point numbers, those below 32 in a second octet refused |
| CborParser.CborValue.PreparseNextValue | tinycbor/src/cborparser.c:256-273 | in place: the count goes down except over a tag, an indefinite container ends at its break |
| CborParser.CborValue.AdvanceInternal | tinycbor/src/cborparser.c:275-288 | in place: steps over a head of a fixed type; its assertion on the type holds |
| CborParser.CborValue.AdvanceFixed | tinycbor/src/cborparser.c:394-401 | in place: one step over a fixed-size item, or the error at the end |
| CborParser.CborValue.SkipTag | tinycbor/src/cborparser.c:478-486 | in place: the loop computes the tag-skipping specification |
| CborParser.CborValue.EnterContainer | tinycbor/src/cborparser.c:505-548 | in place: the nested iterator stands on the first member, or is exhausted; lengths of 2^32-1 items and of more than 2^31-1 pairs are refused |
| CborParser.CborValue.ReadCount | tinycbor/src/cborparser.c:520-541 | its reading of a declared length: behind the head with the members counted, or back where it was for too many |
| CborParser.CborValue.LeaveContainer | tinycbor/src/cborparser.c:562-568 | in place: the outer iterator moves behind the container; the assertions hold for every exhausted nested iterator |
| CborParser.CborValue.IterateStringChunks | tinycbor/src/cborparser.c:918-990 | length always returned; copy mode writes exactly the leading chunks that fit and a NUL when the whole string fits with room to spare, nothing else; success exactly when the string fits; compare mode true exactly when the contents equal the given octets |
| CborParser.CborValue.CopyString | tinycbor/src/cborparser.c:1057-1065 | the same with its error: out of memory exactly when the string does not fit |
| CborParser.CborValue.TextStringEquals | tinycbor/src/cborparser.c:1085-1098 | tags stripped, a text string in one piece or in chunks is compared by its whole contents |
| CborParser.CborValue.AdvanceRecursive | tinycbor/src/cborparser.c:403-428 | the recursive, looping skip computes its specification on arbitrary bytes, within the nesting limit |
| CborParser.CborValue.AdvanceToEnd | tinycbor/src/cborparser.c:416-424 | its loop ends exhausted or with the first error, terminating because the position moves |
| CborParser.CborValue.Advance | tinycbor/src/cborparser.c:442-448 | cbor_value_advance on every valid iterator over any bytes |
| CborReading.AdvanceReads | tinycbor/src/cborparser.c:403-428 | over an untagged well-formed item advance moves exactly to its end if and only if nesting and container counts keep within the limits |
| CborReading.AdvanceToEndReads | tinycbor/src/cborparser.c:403-428 | so it does over all the members left in a container |
| CborReading.TaggedMember | tinycbor/src/cborparser.c:405-406 | advancing over a tag leaves the tagged content as the next item, the count unchanged |
| CborReading.EnterItem | tinycbor/src/cborparser.c:505-548 | entering a well-formed container stands on its first member if and only if its count fits the iterator |
| CborReading.ScanMatchesGrammar | tinycbor/src/cborparser.c:918-990 | a string scans exactly when it is well-formed, to the same contents and end |
| CborReading.ReadItemReads | tinycbor/src/cborparser.c:170-568 | a reader that uses only the public calls returns every well-formed item within the count limits, and ends behind it |
| CborReading.RoundTrip | tinycbor/src/cborencoder.c:278-538 | what the encoder writes of an item is read back as that item through init, enter, advance, leave and the getters, ending exactly at the last byte with nothing remaining |
| CborReading.ReadItemIsSound | tinycbor/src/cborparser.c:170-568 | on arbitrary bytes, whatever the reader returns with even maps is what the grammar says is there |
| CborReading.ReaderAcceptsExactlyTheGrammar | tinycbor/src/cborparser.c:170-568 | on arbitrary bytes the reader succeeds with even maps if and only if the bytes begin with a well-formed item within the count limits, and then agrees with it |
| CborReading.LenientInputs | tinycbor/src/cborparser.c:256-288 | two inputs that are not well-formed: the reader takes the first, cbor_value_advance the second, which the reader refuses |
| CborReading.OddMap | tinycbor/src/cborparser.c:256-273 | an indefinite map closed after a key is not well-formed, and is read |
| CborReading.DanglingTag | tinycbor/src/cborparser.c:256-288 | a break right behind a tag is not well-formed; it is advanced over, and refused by the reader |
| CborLenient.AdvanceExactly | tinycbor/src/cborparser.c:403-428 | on arbitrary bytes, from an iterator on no tag, advance succeeds if and only if an item of the relaxed grammar stands there within nesting and count limits, and moves exactly behind it; on an item beyond the limits the error says so |
| CborLenient.AdvanceToEndExactly | tinycbor/src/cborparser.c:416-424 | so it does over all that is left of a container |
| CborLenient.WalkAcceptsExactly | tinycbor/src/cborparser.c:325-448 | advancing through a whole buffer of arbitrary bytes succeeds if and only if it begins with such an item, tagged or not, and ends behind it |
| CborLenient.StrictExactly | tinycbor/src/cborparser.c:170-448 | the grammar of RFC 7049 and the relaxed one agree exactly where no indefinite map is closed after a key and no tag stands in front of a break, and then on the end, the nesting and the counts |
| CborLenient.StrictCount | tinycbor/src/cborparser.c:416-424 | so they do on a counted run of items |
| CborLenient.StrictUntilBreak | tinycbor/src/cborparser.c:256-273 | and on a run up to the break |
| CborLenient.WalkTakesMalformedExactly | tinycbor/src/cborparser.c:256-448 | the walk takes bytes that are not well-formed exactly when one of those two rules was used, within the limits |
| CborLenient.ReadExactly | tinycbor/src/cborparser.c:170-568 | on arbitrary bytes the reader succeeds if and only if an item of the relaxed grammar stands there whose counts fit and in which no tag stands in front of a break, and moves behind it |
| CborLenient.ReadToEndExactly | tinycbor/src/cborparser.c:170-568 | so it does over all that is left of a container |
| CborLenient.ReaderAcceptsExactly | tinycbor/src/cborparser.c:170-568 | reading a buffer succeeds exactly then, and agrees with the grammar of RFC 7049 exactly when no indefinite map in it is closed after a key |
| CborLenient.EnterRest | tinycbor/src/cborparser.c:505-548 | on arbitrary bytes entering fails exactly where the first member does not begin or the count does not fit; else what is left to iterate over is the container's contents |
| CborLenient.TagRest | tinycbor/src/cborparser.c:256-288 | stepping over a tag leaves what is left of a container unchanged, and ends it if a break follows |
| CborLenient.ItemRest | tinycbor/src/cborparser.c:256-273 | what is left of a container is its first item and what is left behind it, and nothing if the next head cannot be decoded |
| CborStrings.FittingIsPrefix | tinycbor/src/cborparser.c:939-973 | the chunks stored are a prefix of the contents, all of them exactly when they fit |
| CborMap.FirstMatchIsFirst | tinycbor/src/cborparser.c:1180-1208 | the reference lookup is the first pair whose key, tags stripped, is that text string |
| CborMap.FindReads | tinycbor/src/cborparser.c:1187-1208 | the search over a well-formed map stops on the value behind the first key that matches, and is exhausted exactly when none does |
| CborMap.FindValueReads | tinycbor/src/cborparser.c:1172-1217 | the same for cbor_value_map_find_value on definite, indefinite and chunk-keyed maps within the limits; keys compared with tags stripped |
| CborMap.SkipTagReads | tinycbor/src/cborparser.c:478-486 | skipping the tags of a member leaves the untagged member in its place |
| CborMapFind.MapFindValue | tinycbor/src/cborparser.c:1172-1217 | in place: the caller's element iterator ends as that specification says, on every well-formed map |
| CborMapFind.Search | tinycbor/src/cborparser.c:1187-1208 | its loop |
| CborEncoder.Encoder.Append | tinycbor/src/cborencoder.c:239-271 | appending in either reading of the union: stored if it all fits, else counted, nothing past the capacity written, nothing stored lost |
| CborEncoder.Encoder.LayOutHead | tinycbor/src/cborencoder.c:278-303 | the head laid out backwards in sixteen octets is the shortest head of the number, whose octets CborNumber.OctetsOfHead lists |
| CborEncoder.Encoder.EncodeNumberNoUpdate | tinycbor/src/cborencoder.c:278-305 | exactly that head is appended |
| CborEncoder.Encoder.EncodeSimpleValue | tinycbor/src/cborencoder.c:357-365 | values 25 to 31 are refused without effect, the others appended and counted |
| CborEncoder.Encoder.EncodeFloatingPoint | tinycbor/src/cborencoder.c:378-393 | 0xF9, 0xFA or 0xFB and the bit pattern appended and counted |
| CborEncoder.Encoder.EncodeTag | tinycbor/src/cborencoder.c:400-404 | appended, not counted as an item |
| CborEncoder.Encoder.EncodeString | tinycbor/src/cborencoder.c:406-412 | head and contents appended, also when the head alone did not fit, counted once |
| CborEncoder.Encoder.CreateContainer | tinycbor/src/cborencoder.c:451-514 | the nested encoder continues the parent's stream, storing or counting; maps of more than SIZE_MAX / 2 pairs are refused |
| CborEncoder.Encoder.CloseContainer | tinycbor/src/cborencoder.c:528-538 | the parent takes over position or count, also when only the nested encoder had overflowed, and appends the break of an indefinite container |
| CborEncoder.Encoder.CloseContainerChecked | tinycbor/src/cborencoder_close_container_checked.c:60-80 | for a definite container that fits: no error, too few or too many items exactly as the items added equal, fall short of or exceed the declared number, pairs counted twice |
| CborEncoder.Encoder.GetExtraBytesNeeded | tinycbor/tinycbor/cbor.h:211-214 | how far the encoding so far exceeds the capacity, exactly |
| CborIntegers.EncodeInt | tinycbor/src/cborencoder.c:341-348 | major type and argument stand for the given 64-bit integer |
| CborIntegers.GetInt64Checked | tinycbor/src/cborparser.c:744-766 | succeeds exactly on the numbers a 64-bit integer holds, with that number |
| CborIntegers.GetIntChecked | tinycbor/src/cborparser.c:783-812 | succeeds exactly on the numbers a 32-bit integer holds, with that number |
| CborIntegers.UncheckedIsRightExactlyWhenChecked | tinycbor/tinycbor/cbor.h:317-323 | the unchecked getter is right exactly on what the checked one accepts |
| CborScript.Run | tinycbor/src/cborencoder.c:239-538 | any properly nested sequence of calls appends its reference encoding and its item count; every checked close succeeds exactly when all declared counts are right |
| CborScript.RunOp | tinycbor/src/cborencoder.c:239-538 | so does each call with what is nested in it |
| CborScript.EncodeAll | tinycbor/tinycbor/cbor.h:206-214 | for every capacity: the buffer holds exactly the reference encoding if it fits, else the extra octets needed are exactly the rest; nothing behind the capacity is touched |
| CborScript.Measure | tinycbor/tinycbor/cbor.h:211-214 | encoding without a buffer counts the length |
| CborScript.EncodeGrowing | tinycbor/src/cborencoder.c:140-183 | the documented retry with that much more room succeeds at once |
| CborScript.ItemOpsEncode | tinycbor/src/cborencoder.c:278-538 | the calls for an item write its reference encoding, count one item and declare the right lengths |
| CborScript.EncodeAndRead | tinycbor/src/cborencoder.c:140-183 | from item to a buffer of any initial size and back through the parser: the same item |
| CborScript.SimpleValueRoundTrip | tinycbor/src/cborencoder.c:357-365 | a simple value the encoder accepts is read back if and only if it is not 24, which the parser refuses |
| CborToText.Base16InPlace | tinycbor/src/cbortojson.c:190-195 | in one array: the octets at its tail become their base 16 text, no octet overwritten before it is read |
| CborToText.DecodeUndoesBase16 | tinycbor/src/cbortojson.c:172-197 | the text determines the octets |
| CborToText.Base64InPlace | tinycbor/src/cbortojson.c:218-267 | in one array: the octets at its tail become base 64 text up to a NUL, padded exactly when the filler is a character, although a group reads four octets and the tail one too many |
| CborToText.GroupsInPlace | tinycbor/src/cbortojson.c:218-238 | its loop: what is not read yet stays where it was |
| CborToText.OneGroup | tinycbor/src/cbortojson.c:222-237 | one turn of it: the four characters of the next three octets, whatever stood in front of them |
| CborToText.FinishInPlace | tinycbor/src/cbortojson.c:240-267 | the last one or two octets, filler and NUL |
| CborToText.TopOctetIsIgnored | tinycbor/src/cbortojson.c:222-237 | the octet read in front of a group changes no character |
| CborToText.DecodeUndoesBase64 | tinycbor/src/cbortojson.c:199-270 | an independent decoder gets the octets back, padded or not |
| CborToText.BothAreAlphabets | tinycbor/src/cbortojson.c:272-284 | 64 different characters each, none of them NUL or the filler |
| CborToText.AlphabetsSpelled | tinycbor/src/cbortojson.c:272-284 | each of the 64 characters of both, spelled out |
| CborToText.TestVectors | tinycbor/src/cbortojson.c:172-284 | test vectors of RFC 4648 come out as that document prints them |
| CborToText.DumpBase16 | tinycbor/src/cbortojson.c:172-197 | for a byte string in one piece or in chunks: its text, and the iterator behind it; an error leaves the iterator alone |
| CborToText.DumpBase64 | tinycbor/src/cbortojson.c:199-270 | the same in base 64 |
| CborToText.DumpBase64Standard | tinycbor/src/cbortojson.c:272-277 | section 4 of RFC 4648, padded |
| CborToText.DumpBase64Url | tinycbor/src/cbortojson.c:279-284 | section 5 of RFC 4648, without padding |
| Utf8.WrittenIsValid | ccan/json/source/json.c:265-294 | every character written is accepted with its own length and read back |
| Utf8.ValidIsWritten | ccan/json/source/json.c:151-203 | every character accepted is what the writer makes of the scalar value the reader gives for it |
| Utf8.Forms | ccan/json/source/json.c:151-257 | in numbers: how many octets a character takes, their ranges, and the code point they count |
| Utf8.ValidIffWritten | ccan/json/source/json.c:206-217 | a string is accepted if and only if it is the encoding of some sequence of scalar values (section 4 of RFC 3629) |
| Utf8.EncodeThenDecode | ccan/json/source/json.c:226-294 | reading undoes writing on whole texts |
| Utf8.DecodeThenEncode | ccan/json/source/json.c:226-294 | and writing undoes reading |
| Utf8.Validate | ccan/json/source/json.c:206-217 | the loop decides that |
| Utf8.FromToSurrogatePair | ccan/json/source/json.c:302-326 | joining undoes splitting |
| Utf8.ToFromSurrogatePair | ccan/json/source/json.c:302-326 | and splitting undoes joining, for every pair that joins |
| CborPretty.DecodeChar | tinycbor/src/cborpretty.c:169-215 | the second decoder accepts the same multi-octet characters with the same values and lengths, its range check by 32-bit subtraction included |
| CborPretty.Utf8EscapedDump | tinycbor/src/cborpretty.c:125-239 | the loop prints the escape of every character up to the end or the first invalid one, and reports which |
| CborPretty.DumpsExactlyUtf8 | tinycbor/src/cborpretty.c:125-239 | it succeeds exactly on what utf8_validate accepts |
| CborPretty.HalvesAgree | tinycbor/src/cborpretty.c:222-228 | its surrogate values are those of to_surrogate_pair |
| CborPretty.PrettySpelled | tinycbor/src/cborpretty.c:125-239 | what is printed for each character, in letters |
| JsonString.UnitSpelled | ccan/json/source/json.c:1351-1361 | an escape by number: a backslash, u and four digits in upper case |
| CborPretty.ParseUndoesDump | tinycbor/src/cborpretty.c:125-239 | parse_string reads the printed text of every NUL-free string back as that string, across the two code bases |
| JsonString.ParseUndoesHex16 | ccan/json/source/json.c:1318-1361 | parse_hex16 undoes write_hex16 |
| JsonString.ParseUndoesEscape | ccan/json/source/json.c:1170-1258 | each character but U+001F is read back from what is written for it, and no closing quotation mark is seen in it |
| JsonString.ParseUndoesEmit | ccan/json/source/json.c:843-956 | on every NUL-free UTF-8 string parse_string gives back what emit_string was given, or fails if there is a U+001F in it |
| JsonString.ParsedIsText | ccan/json/source/json.c:843-956 | whatever parse_string accepts is UTF-8 without NUL, whichever escapes it came from |
| JsonRoundTrip.ParseUndoesToken | ccan/json/source/json.c:968-1014 | a number's text is read to its end in front of whatever may follow a value |
| JsonRoundTrip.ParseUndoesEmitValue | ccan/json/source/json.c:1051-1076 | printed at any depth with any white space, a value is read back, order and duplicate keys included, or refused for a U+001F in a string or key |
| JsonRoundTrip.ParseUndoesEmitElements | ccan/json/source/json.c:1091-1113 | so are the elements of an array |
| JsonRoundTrip.ParseUndoesEmitMembers | ccan/json/source/json.c:1130-1154 | and the members of an object |
| JsonRoundTrip.DecodeUndoesStringify | ccan/json/source/json.c:361-423 | json_decode of json_stringify: the value, a number text that is no number having become null; nothing exactly when there is a U+001F |
| JsonRoundTrip.RoundTripIff | ccan/json/source/json.c:361-423 | with numbers that are numbers, the value comes back if and only if no string or key holds U+001F |
| JsonReads.ReadsDoc | ccan/json/source/json.c:673-741 | parse_value reads every text the generating grammar writes as the value that grammar gives it: each character raw, escaped by a letter, by number or as a pair, digits in either case, every form of a number, white space between all tokens |
| JsonReads.ReadsElements | ccan/json/source/json.c:743-785 | so the loop of parse_array reads the elements |
| JsonReads.ReadsEntries | ccan/json/source/json.c:787-841 | and that of parse_object the members |
| JsonReads.CharReads | ccan/json/source/json.c:843-956 | parse_string reads every way to write a character as that character, a slash behind a backslash among them |
| JsonReads.NumeralReads | ccan/json/source/json.c:968-1014 | parse_number takes every sign, fraction and exponent form whole |
| JsonDerived.DocFrom | ccan/json/source/json.c:673-841 | whatever parse_value reads is a text of that grammar, up to where it stops, and the value the grammar gives it |
| JsonDerived.CharFrom | ccan/json/source/json.c:843-956 | so is each character, whichever way it is written |
| JsonDerived.NumeralFrom | ccan/json/source/json.c:968-1014 | and each number |
| JsonDerived.DecodesExactly | ccan/json/source/json.c:361-383 | json_decode gives a value exactly for the texts of the grammar that mean it, white space around them, up to the NUL |
| JsonDerived.EscapesSpelled | ccan/json/source/json.c:1170-1258 | what is printed for each character, in letters |
| JsonDerived.ScalarsSpelled | ccan/json/source/json.c:1051-1113 | and for null, the truth values and empty containers |
| JsonDerived.ArraySpelled | ccan/json/source/json.c:1091-1113 | an array of two is printed one element a line, indented one step, the bracket on a line of its own |
| JsonDerived.ObjectSpelled | ccan/json/source/json.c:1130-1154 | an object likewise, each key with a colon and a space |
| JsonBuffer.SB.Grow | ccan/json/source/json.c:71-85 | doubling ends with room enough, contents and position kept |
| JsonBuffer.SB.Need | ccan/json/source/json.c:66-69 | afterwards there is room enough |
| JsonBuffer.SB.Put | ccan/json/source/json.c:87-92 | contents extended by exactly those octets, inside the allocation |
| JsonBuffer.SB.Putc | ccan/json/source/json.c:94-98 | the same for one octet |
| JsonBuffer.SB.Finish | ccan/json/source/json.c:105-110 | the NUL lands inside the allocation and the text in front of it is the contents, as its assertion says |
| JsonBuffer.EscapeAt | ccan/json/source/json.c:1170-1258 | one character escaped in place, inside the octets reserved |
| JsonBuffer.EmitStringTo | ccan/json/source/json.c:1156-1273 | the loop appends the quoted string; the 14 octets reserved are enough for each turn and the closing quotation mark |
| JsonBuffer.EmitValue | ccan/json/source/json.c:1051-1076 | walking a linked tree, the printer appends the text of the value it stands for |
| JsonBuffer.EmitArray | ccan/json/source/json.c:1091-1113 | its loop along the next links of the elements |
| JsonBuffer.EmitObject | ccan/json/source/json.c:1130-1154 | its loop along the members |
| JsonBuffer.EmittedHasNoNul | ccan/json/source/json.c:408-423 | no printed text holds a NUL, so that it is a C string |
| JsonBuffer.Stringify | ccan/json/source/json.c:408-423 | the finished array holds the text of the value the tree stands for, and a NUL |
| JsonParser.SkipSpaceAt | ccan/json/source/json.c:1016-1022 | moves to the first octet that is no space, never past the NUL |
| JsonParser.ExpectLiteral | ccan/json/source/json.c:1302-1312 | succeeds exactly when the text goes on with the literal |
| JsonParser.ParseHex16At | ccan/json/source/json.c:1318-1345 | four digits in either case, computed in 16 bits |
| JsonParser.ParseStringAt | ccan/json/source/json.c:843-956 | the loop with its growing buffer computes the specification, which JsonReads.CharReads and JsonDerived.CharFrom compare with a grammar; the 4 octets reserved, or the throwaway buffer, are enough for each character |
| JsonParser.ParseNumberAt | ccan/json/source/json.c:968-1014 | accepts exactly the strict number pattern and moves behind it |
| JsonParser.MakeLeaf | ccan/json/source/json.c:516-554 | a new node without parent or key that stands for the scalar |
| JsonParser.ParseValueAt | ccan/json/source/json.c:673-741 | recursive descent on arbitrary text: accepts, and moves, as the grammar says, without reading behind the NUL; if asked to, builds a new tree of separate nodes that stands for the value read |
| JsonParser.ParseArrayAt | ccan/json/source/json.c:743-785 | the same for an array, hanging each element behind the others |
| JsonParser.ParseArrayBody | ccan/json/source/json.c:756-772 | its loop |
| JsonParser.ParseObjectAt | ccan/json/source/json.c:787-841 | the same for an object, each member with its key |
| JsonParser.ParseObjectBody | ccan/json/source/json.c:801-825 | its loop |
| JsonTree.AppendElement | ccan/json/source/json.c:598-608 | hanging a tree behind the children of an array gives an array of one more value, all nodes separate |
| JsonTree.AppendMember | ccan/json/source/json.c:592-596 | the same for a member of an object, with its key |
| JsonParser.DecodeText | ccan/json/source/json.c:361-383 | json_decode on arbitrary text: a new tree for the value, or nothing exactly when the text is no JSON, both as JsonDerived.DecodesExactly says |
| JsonParser.StringifyAndDecode | ccan/json/source/json.c:361-423 | from a linked tree through json_stringify and json_decode to a new linked tree for the same value, or nothing exactly for a U+001F |
| JsonParser.ValidateText | ccan/json/source/json.c:451-468 | json_validate accepts exactly what json_decode decodes |
| JsonNodes.AppendNode | ccan/json/source/json.c:566-577 | relinks so that the child sequence is the old one and the child |
| JsonNodes.PrependNode | ccan/json/source/json.c:579-590 | so that the child comes first |
| JsonNodes.RemoveFromParent | ccan/json/source/json.c:647-671 | so that just this child is gone, and hangs nowhere; a node without a parent stays as it is |
| JsonNodes.Add | ccan/json/source/json.c:598-645 | the four public calls, with the key |
| JsonEdits.RunEdits | ccan/json/source/json.c:566-671 | any sequence of appends, prepends and removals, of elements or of members with their keys, keeps a well-formed list on any heap and has the effect of the edits on the child sequence and on every key |
| JsonCheck.NewChild | ccan/json/source/json.c:1401-1411 | the back-link test rules out a cycle of any length: the loop of json_check never meets a child twice |
| JsonCheck.Check | ccan/json/source/json.c:1363-1434 | on any heap, cyclic or inconsistent links included, on which the recursion does not come back to the node, the check ends and accepts exactly the sound trees: children distinct, doubly linked from head to tail, pointing to their parent, texts UTF-8, keys on members and on nothing else, at every level |
| JsonCheck.EndsExactly | ccan/json/source/json.c:1363-1434 | on any such heap the recursion ends if and only if no chain of calls leads from the node back to itself; it is then nested no deeper than there are nodes and judges by soundness; else no depth is enough |
| JsonCheck.NewOnPath | ccan/json/source/json.c:1407-1408 | the test of the parent link makes every other repetition impossible: no node is met twice on the way down |
| JsonCheck.TopDoesNotLoop | ccan/json/source/json.c:1407-1408 | below a node without a parent the recursion always ends |
| JsonCheck.LoopNeverEnds | ccan/json/source/json.c:1416-1417 | where calls lead back to a node, the check of every node that leads there needs more room than any |
| JsonCheck.TwoInACircle | ccan/json/source/json.c:1363-1434 | such a heap: two nodes, each the only child of the other, every link in place |
| JsonCheck.SoundDoesNotLoop | ccan/json/source/json.c:1363-1434 | a sound node is not its own descendant |
| JsonCheck.SoundIff | ccan/json/source/json.c:1363-1434 | soundness one level at a time |
| JsonCheck.CheckChildren | ccan/json/source/json.c:1385-1428 | its loop over the children |
| JsonCheck.ChildrenAreTheChain | ccan/json/source/json.c:1397-1428 | a well-formed list is exactly the chain of next links the check walks |
| JsonEdits.SoundFamily | ccan/json/source/json.c:1385-1428 | the check accepts a container exactly when every child's key is as its kind requires, is text, and all is well below the child |
| JsonEdits.RunThenCheck | ccan/json/source/json.c:566-1434 | after any run of edits json_check ends, and accepts the container exactly when its own key is text, every key given to a child that is still there is, and all was well below the children |
| JsonEdits.NeverBack | ccan/json/source/json.c:1416-1417 | a container that is not below its own children never brings the check back to itself |
| JsonEdits.AppendParent | ccan/json/source/json.c:598-608 | json_append_element takes the parent of the very node, and json_check does not end on what it makes |
| JsonAccept.DecodedTexts | ccan/json/source/json.c:361-383 | every string of a decoded value is UTF-8 without NUL, as emit_string asserts, and every number text is a number |
| JsonAccept.TokenIsNumber | ccan/json/source/json.c:968-1014 | the text parse_number takes is, on its own, a number again |
| JsonAccept.TreeIsSound | ccan/json/source/json.c:1363-1434 | a tree whose links agree with its shape and whose strings are text is sound |
| JsonAccept.DecodeThenCheck | ccan/json/source/json.c:361-1434 | json_check accepts what json_decode builds, on arbitrary text |
| JsonAccept.DecodeStringifyDecode | ccan/json/source/json.c:361-423 | from arbitrary text through json_decode, json_stringify and json_decode: a tree for the same value, or nothing exactly for a U+001F |
| JsonCheck.ChainSplits | ccan/json/source/json.c:1397-1428 | the next links from the head visit what the loop has visited, then the rest |
| MergeSort.MergeIsStable | kubos-core/kubos-core/utlist.h:139-150 | merging keeps equal elements in order, those of the first run in front |
| MergeSort.BottomUpSorts | kubos-core/kubos-core/utlist.h:109-168 | passes of doubled width end sorted |
| MergeSort.BottomUpIsStableSort | kubos-core/kubos-core/utlist.h:109-168 | for every total preorder the passes give a sorted, stable permutation |
| Utlist.SkipRun | kubos-core/kubos-core/utlist.h:126-133 | q ends behind the first run, psize its length |
| Utlist.MergeRuns | kubos-core/kubos-core/utlist.h:134-157 | relinking two runs appends exactly their merge to the rebuilt list |
| Utlist.SortPass | kubos-core/kubos-core/utlist.h:120-161 | one pass relinks the nodes into the merged runs and counts the merges |
| Utlist.Close | kubos-core/kubos-core/utlist.h:223-224 | the end of a pass closes the list: the tail's next, the head's prev, or the circle |
| Utlist.Sort | kubos-core/kubos-core/utlist.h:109-307 | LL_SORT2, DL_SORT2 and CDL_SORT2 terminate on every finite list and leave the same nodes in a complete list of their kind, all prev links rebuilt, sorted and stable for every total preorder |
| UtlistLinks.DlPrepend | kubos-core/kubos-core/utlist.h:574-584 | DL_PREPEND2 gives a complete list with the node in front |
| UtlistLinks.DlAppend | kubos-core/kubos-core/utlist.h:589-601 | DL_APPEND2, at the end |
| UtlistLinks.DlConcat | kubos-core/kubos-core/utlist.h:606-619 | DL_CONCAT2 joins two lists, either of them possibly empty |
| UtlistLinks.DlDelete | kubos-core/kubos-core/utlist.h:624-640 | DL_DELETE2 takes out any one node |
| UtlistLinks.DlReplace | kubos-core/kubos-core/utlist.h:670-694 | DL_REPLACE_ELEM2 puts one node in another's place |
| UtlistLinks.DlPrependElem | kubos-core/kubos-core/utlist.h:699-715 | DL_PREPEND_ELEM2, in front of any node |
| UtlistLinks.DlAppendElem | kubos-core/kubos-core/utlist.h:720-736 | DL_APPEND_ELEM2, behind any node |
| UtlistLinks.CdlAppend | kubos-core/kubos-core/utlist.h:747-759 | CDL_APPEND2 |
| UtlistLinks.CdlPrepend | kubos-core/kubos-core/utlist.h:764-776 | CDL_PREPEND2 |
| UtlistLinks.CdlDelete | kubos-core/kubos-core/utlist.h:781-790 | CDL_DELETE2 takes out any one node, the circle closed again |
| UtlistLinks.CdlReplace | kubos-core/kubos-core/utlist.h:835-853 | CDL_REPLACE_ELEM2 |
| UtlistLinks.CdlPrependElem | kubos-core/kubos-core/utlist.h:858-873 | CDL_PREPEND_ELEM2 |
| UtlistLinks.CdlAppendElem | kubos-core/kubos-core/utlist.h:878-890 | CDL_APPEND_ELEM2 |
| Crc32Table.TableIsShift8 | libcsp/source/csp_crc32.c:34-67 | every entry of the table is its index shifted through the polynomial eight times |
| Crc32.TableStepIsStep | libcsp/source/csp_crc32.c:69-81 | a step by table is a step by definition |
| Crc32.FeedIsBitByBit | libcsp/source/csp_crc32.c:69-81 | octet-wise feeding is the bit-by-bit reflected division of Appendix B of RFC 4960 |
| Crc32.Memory | libcsp/source/csp_crc32.c:69-81 | the loop computes that checksum of any data |
| Crc32.BurstChangesChecksum | libcsp/source/csp_crc32.c:69-81 | two messages that differ within four consecutive octets have different checksums |
| Crc32.CheckValue | libcsp/source/csp_crc32.c:69-105 | the check value: the nine digits 123456789 have the checksum 0xE3069283, and it goes out as E3 06 92 83 |
| Crc32.TrailerIff | libcsp/source/csp_crc32.c:97-124 | four octets are the trailer if and only if, the most significant first, they count the checksum |
| Crc32.Append | libcsp/source/csp_crc32.c:83-105 | the four octets behind the payload, read the most significant first, are the checksum as a number; length adjusted, all else kept |
| Crc32.Verify | libcsp/source/csp_crc32.c:107-136 | succeeds exactly when the last four octets, read the most significant first, are the checksum of the rest as a number, and then strips them |
| Crc32.AppendThenVerify | libcsp/source/csp_crc32.c:83-136 | verification after appending succeeds and restores the packet |
| Crc32.DamageIsDetected | libcsp/source/csp_crc32.c:107-136 | any change within four consecutive octets of header or payload is refused |
| Crc32.TrailerDamageIsDetected | libcsp/source/csp_crc32.c:107-136 | and any change of the trailer |
| Sfp.DecodeUndoesEncode | libcsp/source/csp_sfp.c:38-49 | the header removed is the header added |
| Sfp.HeaderOctets | libcsp/source/csp_sfp.c:38-49 | offset and total size behind the payload, four octets each, the most significant first |
| Sfp.Send | libcsp/source/csp_sfp.c:51-94 | the fragments of the message go out in order, all of them or those before the first failure; with an mtu of 0 only empty fragments go out, until the first failure |
| Sfp.Recv | libcsp/source/csp_sfp.c:100-162 | the loop returns 0 exactly when the specified reception completes, with the buffer it describes; the size is reported exactly when a first fragment was stored; every packet read is freed but one without the fragment flag |
| Sfp.Reassembles | libcsp/source/csp_sfp.c:100-162 | over a channel that loses, repeats and reorders, completion means that every fragment arrived and the output is the message, for fragments of two octets or more |
| Sfp.SoundExactly | libcsp/source/csp_sfp.c:128-135 | reception is sound if and only if fragments carry two octets or more or the message has at most one |
| Sfp.LosesFirstOctet | libcsp/source/csp_sfp.c:128-135 | with one-octet fragments a lost first fragment goes unnoticed, for every longer message |
| Sfp.InOrderCompletes | libcsp/source/csp_sfp.c:100-162 | in order and without loss reception completes with the message, at any fragment size |
| Sfp.Transfer | libcsp/source/csp_sfp.c:51-162 | sending and receiving over such a channel delivers every message that is not empty |
| CspPlaces.OnePlace | libcsp/source/csp_buffer.c:48-208 | no two entries of free queue, router FIFO, receive queues and socket queues name the same buffer |
| CspPlaces.FreeIffUncounted | libcsp/source/csp_buffer.c:48-208 | the count is 0 exactly in the free queue and never above 1; a buffer in no queue is outside, in the hands of application, operation or driver |
| CspPlaces.MoveKeepsInv | libcsp/source/csp_buffer.c:48-208 | moving one buffer from the front of a queue to the end of another, or in or out, keeps all that |
| CspPlaces.RoomToFree | libcsp/source/csp_buffer.c:177-208 | the free queue has room whenever a buffer comes back, so that the unchecked enqueue cannot fail |
| CspNode.Node.constructor | libcsp/source/csp_conn.c:139-180 | the initial state satisfies every invariant, whatever the random first port |
| CspNode.Node.BufferGet | libcsp/source/csp_buffer.c:126-150 | nothing for too large a size or an empty pool, else the first free buffer with count 1 |
| CspNode.Node.BufferFree | libcsp/source/csp_buffer.c:177-208 | a null, foreign or already free pointer changes nothing; a buffer outside goes to the free queue with count 0 |
| CspNode.Node.FreeTwice | libcsp/source/csp_buffer.c:177-208 | freeing twice is freeing once |
| CspNode.Node.BufferClone | libcsp/source/csp_buffer.c:210-224 | another buffer with the same packet, or nothing |
| CspNode.Node.QfifoWrite | libcsp/source/csp_qfifo.c:101-155 | queued if there is an interface and room, else freed |
| CspNode.Node.QfifoRead | libcsp/source/csp_qfifo.c:70-99 | the oldest entry, now in the reader's hands |
| CspNode.Node.LoopbackTx | libcsp/source/interfaces/csp_if_lo.c:38-55 | a packet for this node is queued for the router if there is room, any other freed |
| CspNode.Node.SendDirect | libcsp/source/csp_io.c:245-348 | on success the packet left the caller's hands, on failure not; success exactly when route, size limit, options and interface allow; by the loopback it is at the end of the router's queue exactly when it is for this node and there is room, else free; the checksum appended exactly to this node's own packets that ask for it |
| CspNode.Node.Stamp | libcsp/source/csp_io.c:271-325 | identifier and, for this node's own packets, checksum of what is sent |
| CspNode.Node.SendOn | libcsp/source/csp_io.c:350-372 | csp_send: exactly on an open connection over which the packet can be sent, under the connection's identifier |
| CspNode.Node.OutgoingArrives | libcsp/source/csp_route.c:91-170 | what a node sends under its own address passes the check of any receiver and comes out as it was |
| CspNode.Node.FindConn | libcsp/source/csp_conn.c:203-217 | the first open client connection that matches under the mask, or none exactly when there is none |
| CspNode.Node.Allocate | libcsp/source/csp_conn.c:242-278 | nothing exactly when all slots are open; else the first closed slot behind the one given out last, no other slot touched |
| CspNode.Node.FlushRx | libcsp/source/csp_conn.c:219-240 | exactly the packets queued on the connection go to the free queue |
| CspNode.Node.ConnNew | libcsp/source/csp_conn.c:280-298 | a closed slot with the identifiers, nothing queued |
| CspNode.Node.Close | libcsp/source/csp_conn.c:300-341 | the slot is closed and its packets freed; closing again changes nothing |
| CspNode.Node.FindPort | libcsp/source/csp_conn.c:409-440 | ends on an ephemeral port no open client connection receives on, other than the last one given out, or unmoved exactly when there is none such; it ends unless it starts at the lowest port with every port in use |
| CspNode.Node.Connect | libcsp/source/csp_conn.c:349-460 | nothing exactly for unsupported options, no port to pick or no closed slot; else a connection with the picked port at this end; ephemeral ports stay unique |
| CspConns.SearchNeverEnds | libcsp/source/csp_conn.c:409-427 | the search from the lowest ephemeral port never meets its end condition while all ports are in use |
| CspConns.FewConnections | libcsp/source/csp_conn.c:409-427 | with fewer slots than ephemeral ports but one, there is always a port to pick, and the search ends |
| CspConns.ConnectKeepsApart | libcsp/source/csp_conn.c:349-460 | no two connections csp_connect made share a local port, router-made ones stay below the ephemeral range: kept by connecting |
| CspConns.OpenKeepsApart | libcsp/source/csp_conn.c:280-298 | kept by sockets and by connections on lower ports |
| CspConns.CloseKeepsApart | libcsp/source/csp_conn.c:300-341 | kept by closing |
| CspConns.AnswerHits | libcsp/source/csp_route.c:273-280 | the identifier a router-made connection answers under belongs to the client's connection if and only if the packet was sent to that node: an answer to a broadcast does not |
| CspConns.AnswersOnly | libcsp/source/csp_conn.c:203-217 | under the mask of a connection exactly the packets from its other end to this end belong to it, under that of a port all that go there |
| CspConns.HitsOne | libcsp/source/csp_conn.c:203-217 | a packet that belongs to a connection of csp_connect belongs to no other |
| CspNode.Node.CreateSocket | libcsp/source/csp_io.c:142-197 | refused for options not compiled in or a full table; else a closed slot, with a packet queue if connection-less |
| CspNode.Node.Listen | libcsp/source/csp_port.c:64-75 | the socket gets a new, empty queue of connections |
| CspNode.Node.Bind | libcsp/source/csp_port.c:77-101 | a port up to the catch-all is bound once |
| CspNode.Node.GetSocket | libcsp/source/csp_port.c:39-54 | the socket bound to the port if it is open, else the one bound to the catch-all port if that is open, and only for ports below the ephemeral range |
| CspNode.Node.Read | libcsp/source/csp_io.c:215-243 | the oldest packet of an open connection, now the caller's |
| CspNode.Node.RecvFrom | libcsp/source/csp_io.c:435-445 | the oldest packet of a connection-less socket, now the caller's |
| CspNode.Node.Accept | libcsp/source/csp_io.c:199-213 | a connection exactly when the socket's queue is not empty, and then the oldest posted, taken off |
| CspNode.Node.Enqueue | libcsp/source/csp_conn.c:111-137 | queued if the receive queue has room |
| CspNode.Node.NewPacket | libcsp/source/transport/csp_udp.c:26-47 | the packet is in the connection's queue exactly if that has room and the connection could be posted, its socket's queue then the old one and the connection; else it is free, and a connection its socket has no room for is closed |
| CspNode.Node.PostConnection | libcsp/source/transport/csp_udp.c:36-46 | a new connection goes to the end of its socket's queue and forgets the socket, or is closed exactly when there is no room |
| CspNode.Node.SecurityCheck | libcsp/source/csp_route.c:91-170 | a checksum that is flagged must be right, and is stripped |
| CspNode.Node.RouteOut | libcsp/source/csp_route.c:216-236 | a packet for another node reaches a driver exactly when there is a way that does not lead straight back; else it is freed |
| CspNode.Node.DeliverDirect | libcsp/source/csp_route.c:247-258 | queued on the connection-less socket exactly when it passes the check and there is room, else freed |
| CspNode.Node.AcceptConnection | libcsp/source/csp_route.c:276-300 | a new connection exactly when a slot is closed: local port the packet's, below the ephemeral range, the answers from this node to the packet's sender with the ports exchanged, its socket to be told |
| CspNode.Node.DeliverToExisting | libcsp/source/csp_route.c:301-317 | queued on its connection exactly when it passes the check and connection and socket have room, else freed |
| CspNode.Node.DeliverToNew | libcsp/source/csp_route.c:266-300 | to a new connection if it passes the check, a slot is closed and the socket has room, else freed; then it is the connection's only packet, checksum stripped, and the connection is the next in its socket's queue |
| CspNode.Node.Dispatch | libcsp/source/csp_route.c:209-317 | one of the dispositions, each exactly under its condition |
| CspNode.Node.DeliverToConnection | libcsp/source/csp_route.c:260-317 | to the matching connection or a new one, or freed |
| CspNode.Node.RouteWork | libcsp/source/csp_route.c:172-317 | one packet is read and disposed of exactly once on every path: with a driver exactly if it can be forwarded, on a connection-less socket exactly if that is bound, has room and the packet passes, on a connection only if it matches and always if there is room, else freed; delivered stripped of its checksum, at the end of that queue, a new connection posted to its socket and answering to the sender; no other packet moves but to the free queue |
| CspNode.Node.Serve | libcsp/source/csp_route.c:172-317 | the router, csp_accept and csp_read, one after the other, hand a waiting server the packet received, checksum stripped, on a connection that answers to its sender |
| CspNode.Node.Collect | libcsp/source/csp_route.c:301-317 | the router and csp_read hand the caller a packet of a connection that is there already |
| CspNode.Node.Arrive | libcsp/source/csp_qfifo.c:101-155 | a packet from a driver is at the end of the router's queue if there is a buffer and room |
| CspNode.Node.CallSelf | libcsp/source/interfaces/csp_if_lo.c:38-55 | a packet a node sends to itself is heard by its own server, as it was sent |
| CspExchange.Request | libcsp/source/csp_io.c:350-372 | over two nodes: the server's application reads the payload the client's sent, on a connection whose answers belong to the client's |
| CspExchange.Answer | libcsp/source/csp_route.c:172-317 | what the server sends on that connection is read on the client's, as it was sent |
| CspExchange.OnlyHit | libcsp/source/csp_conn.c:203-217 | of all connections of the client that one alone gets the answer, and no socket does |
| CspExchange.Begin | libcsp/source/csp_io.c:421-427 | a connection to the server's port, and a buffer with the request |
| CspExchange.Transaction | libcsp/source/csp_io.c:383-435 | csp_transaction with a server that reads and answers: the server hears the request and the caller gets the answer, whatever both are, with and without checksum |
| CspNode.Node.Do | libcsp/source/csp_route.c:172-317 | every call, in any order, keeps all invariants |
| CspNode.Node.Run | libcsp/source/csp_buffer.c:48-208 | after any sequence of calls each buffer is in one place, with count 0 exactly in the free queue and in no queue exactly when someone outside has it, and no two connections csp_connect made receive on one port |
| CspNode.RunFromStart | libcsp/source/csp_conn.c:139-460 | so it is in every run from initialisation on |
| CspNode.Node.OutsideIsHeld | libcsp/source/csp_buffer.c:48-208 | whether a caller may pass a buffer can be read off the queues: it is in none of them exactly when application, operation or driver has it |
| CspNode.ClientsApart | libcsp/source/csp_conn.c:349-460 | open client connections on ephemeral ports receive on different ones |

## Left out

- CborToText.DumpBase16: requires the item behind the byte string to be readable, as the `assert` in the code does; with assertions compiled out the error would be ignored.
- CborToText.DumpBase64: the same; an allocation that fails is not modelled, nor a buffer of SIZE_MAX octets.
- CborMapFind.MapFindValue: on well-formed maps only, because its assertions presume them.
- CborReading.ReadItem: a reader written for the proof out of the public calls; the repository's own readers print to files.
- CborIntegers.GetInt64: the negation of the most negative word is undefined in C and taken to wrap; `cbor_value_get_int` and the floating-point getters are not modelled.
- CborEncoder.Encoder.Append: position and count are unbounded integers, so an encoding of 2^63 octets or more, where the C subtraction would wrap, is outside the model.
- CborEncoder.Encoder.Nested: the uninitialised nested encoder the caller supplies; create overwrites all of it.
- CborParser.CborValue.EnterContainer: a refused container leaves its own length modulo 2^32 in the nested iterator's count, as in the code, and the iterator must then not be used.
- Sfp.Recv: requires fragment headers inside the announced size, because the copy is not checked in the code; that a packet has the 8 octets of a header is required likewise.
- Sfp.Send: the header is written behind a payload that may fill the packet; packet capacity is not modelled, nor a negative mtu.
- Sfp.Transfer: requires an mtu above 0, with which alone sending comes to an end.
- CspNode.Node.SendDirect: the checksum is appended without a check of the packet's capacity, as in the code; capacity is not modelled, and routing tables and driver results are inputs.
- CspNode.Node.BufferFree: callers free what they hold or what is free already; freeing a packet that is queued elsewhere is outside the model, as is a second reference to one buffer, which no code here takes.
- CspNode.Node.Listen: not for connection-less sockets, whose packet queue it would drop; `csp_close_socket`, which removes a queue, is not modelled.
- CspNode.Node.Accept: not on connection-less sockets, whose queue holds packets and not connections.
- CspNode.Node.Connect: not with the connection-less option, which would leave a slot without the queue its option promises; lock waits that time out are not modelled.
- CspNode.Node.Arrive: stands for a driver, which hands each packet received to the router once, whole and unchanged.
- CspNode.Node.Serve: for a socket with nothing waiting, in the order route, accept, read; other orders are sequences of the same calls, each with its own contract.
- CspExchange.Transaction: the two interfaces deliver what they take, in order and without delay; loss and timeouts are not modelled there, nor the copy of the answer into the caller's buffer and the final close.
- CspNode.Node.RouteWork: sequential, without QoS, RDP, HMAC, XTEA, promiscuous mode and duplicate detection; interface counters and time stamps are left out.
- JsonBuffer.EmitStringTo: `escape_unicode` is the constant false the code sets; the replacement character is never written because the string is asserted to be valid.
- JsonBuffer.SB.Grow: sizes are unbounded, so a doubling beyond SIZE_MAX is outside the model, and memory never runs out.
- JsonParser.ParseValueAt: what a failing parse has built so far is not deleted, there being no memory to give back.
- JsonCheck.Check: requires that the recursion does not come back to the node, on exactly which heaps it does not end; the `bool_` test is left out, booleans being booleans, and so are links to freed memory.
- JsonEdits.RunThenCheck: requires that the container and its future children are not below one of these children; `JsonEdits.AppendParent` shows what becomes of that.
- JsonNodes.Add: not of a node to itself, which the code does not refuse.
- Utlist.Sort: run lengths are unbounded integers where the macros use `int`.
- The compact JSON printer and `json_encode`, which `json_stringify` refuses to reach: no behaviour to state.
- JSON number conversion by `strtod` and `sprintf`, and half-precision floats: rounding, not structure.
- `json_delete`, `json_find_element` and `json_find_member`: only easy members.
- The rest of cbortojson.c and cborpretty.c, open_memstream.c and the error strings: file output and flat tables.
- `csp_sendto` and `csp_sendto_reply`, which are `csp_send_direct` with an identifier from the arguments: easy members.
- RDP, HMAC and XTEA, drivers other than the loopback, service handlers, bridge, debug output and the byte-swapping helpers.
- cmd-control, ipc, telemetry and the other services, unit-test frameworks, start-up code and build tools.
