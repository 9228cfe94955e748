# Verified models of the chip tester's firmware

This project models, in Dafny, the parts of the tester whose correctness is hardest to see by reading, and proves
what they promise. Each module follows one source file or one stage between files.

**Jansson 2.3**, the JSON library that `confrd` and `rlog` use for every message.
`HashTables` is the chained table on the heap: one ring of pairs, each bucket a contiguous run of it, rehashing by
relinking in place. `HashTableWalk` takes it through whole runs and through iteration with deletions. `JsonObjects`
adds the serial counter, `JsonArrays` the growing table of an array, and `RefCounts` the reference counts of the
value graph with the cascade of deletions, which `RefCountRuns` takes through whole runs. `Utf8`, `StrBuffers`,
`Streams`, `Lexers` and `Parsers` are the loader, method by method, against the functions of `JsonGrammar`, which
compute what the loader makes of a text. `Rfc4627` is section 2 of RFC 4627 as syntax trees with their text and their value, and
with this library's leniences written out; it shares nothing with those functions, and `JsonDerivation` proves that
the loader gives a value exactly when the text derives it. `JsonPrint` computes the text of a value for every flag,
`Dumpers` is the dumper on a heap graph that may be shared or cyclic and writes to a sink that may fail at any call,
and `JsonStyle` says in bytes what each flag asks of the text, which `JsonLayout` proves. `StringCodec`,
`JsonRoundTrip` and `JsonApi` prove that loading undoes dumping. `ValueOps` has equality and deep copy.

**The PLL reconfiguration path** (`PllReconfig`): the controller and the scan-cache writer it drives by a handshake,
one clock edge at a time, as a state machine and as registers.

**confrd's request stream.** `VectorText` is the grammar of pin definitions and vector lines with what they mean,
`VectorScan` how the parsers read them and the proof that it is this grammar, `VectorLines` the section parsers with
the masks they set and the strings printed for pins. `RequestStream` is the staged SRAM image, the byte-swapped
copies and the walk over the results in overlapping windows; `Requests` gives every request its fields and its bytes,
and `VectorFile` takes a whole vector file from its lines to the requests the walk finds in the SRAM.

**The SPI NOR flash model** (`SpiFlash`), over any sequence of commands and timer expiries; `FlashTrace` says in the
bytes of the commands what each run answers.

Loops that change state in the source are methods with loop invariants here, objects that methods update are classes,
and each such method is tied to a function whose properties are then proved. Dictionaries of JSON members appear in
three forms: on the heap as a hash table, in the value graph as the list of pairs in table order, and in the meaning
of a value as a map.

Where the code departs from what its documentation or its names suggest, the code is followed:

- `json_array_remove` moves one element more than there is behind the removed one. The move stays inside the table
  exactly when the array is not full (`JsonArrays.JsonArray.Remove`, witness `FullTable`); the elements are right
  in any case.
- A flush need not end in END: `emit_end` passes the reserve check like every request
  (`RequestStream.Stage.EmitEnd`, `RequestStream.RefusedFlush`, witness `FlushWithoutEnd`). The walk over the results
  of such an image returns -1 (`RequestStream.SendAndProcess`).
- Inserting a value into a container checks only that the two are not the same, so longer cycles can be closed, and
  these are never freed (`RefCountRuns.Session`).
- `l_isxdigit` in load.c:39-40 is true of every character, so the scanner takes any four characters after `\u`; when
  one of them is no hex digit the decoder reaches `assert(0)`, which is the token `Aborted` here.
- `dump_string` on a key may fail without the dump failing (dump.c:330 and 367); only string values can make a dump
  fail.
- `utf8_encode` encodes surrogates; it is `utf8_check_full` that keeps them out.
- READ_DATA refuses any range that touches the last byte of the flash, and neither an erase nor a program clears WEL.
- A pin definition holds at most 47 pins although 48 slots exist, a word that starts with any letter but A is an
  output, and a letter alone is pin 0 (`VectorScan.DefinitionIff`).
- The expected outputs of a vector are looked up from the start of `pi->output` for every image, although the outputs
  of flushed vectors stay in front: they are the vector's own when no vector was flushed before, and with different
  outputs only then (`VectorFile.ExpectedIsOwn`).
- A file whose last request leaves no room for END is dropped with EAGAIN, its last image unsent
  (`VectorFile.Reader.RunFile`).

## Model

| member | source | states |
|---|---|---|
| `HashTables.HashStr` | overlay/uClinux-dist/lib/jansson/jansson-2.3/src/hashtable.c:21-35 | the loop computes 33h + c over signed chars, wrapped to 32 bits at every step, from 5381 |
| `HashTables.ListInsert` | overlay/uClinux-dist/lib/jansson/jansson-2.3/src/hashtable.c:43-49 | one circular doubly linked ring stays well linked, with the node just before the given place, at the head, in the middle or at the end |
| `HashTables.ListRemove` | overlay/uClinux-dist/lib/jansson/jansson-2.3/src/hashtable.c:51-55 | the ring without the node is well linked again |
| `HashTables.InsertAlone` | overlay/uClinux-dist/lib/jansson/jansson-2.3/src/hashtable.c:65-69 | a pair for an empty bucket goes to the end of the ring, and the buckets are again disjoint contiguous runs that partition it by hash mod prime |
| `HashTables.InsertFront` | overlay/uClinux-dist/lib/jansson/jansson-2.3/src/hashtable.c:70-74 | a pair for a bucket in use goes in front of its run, and the runs still partition the ring |
| `HashTables.RemoveOne` | overlay/uClinux-dist/lib/jansson/jansson-2.3/src/hashtable.c:131-140 | moving the end of a run that was pointed at the removed pair keeps every bucket's run contiguous, disjoint and complete |
| `HashTables.HashTable.FindPair` | overlay/uClinux-dist/lib/jansson/jansson-2.3/src/hashtable.c:90-113 | the walk from first to last of one bucket finds the pair of a key exactly when the key is in the table at all |
| `HashTables.HashTable.Set` | overlay/uClinux-dist/lib/jansson/jansson-2.3/src/hashtable.c:224-267 | the abstract map is updated, a replaced pair keeps its serial, the old value is the one given up; the ring, run and load invariants hold, after a rehash too |
| `HashTables.HashTable.DoRehash` | overlay/uClinux-dist/lib/jansson/jansson-2.3/src/hashtable.c:162-194 | relinking the nodes while walking the old chain terminates, keeps the map, the serials and the size, re-establishes ring and runs for the next prime, and leaves the load below one |
| `HashTables.HashTable.MovePair` | overlay/uClinux-dist/lib/jansson/jansson-2.3/src/hashtable.c:186-191 | one step of that walk: the unwalked part of the old chain is intact and the new ring holds exactly the walked pairs |
| `HashTables.HashTable.Get` | overlay/uClinux-dist/lib/jansson/jansson-2.3/src/hashtable.c:269-283 | the value the abstract map has for the key, NULL when it has none |
| `HashTables.HashTable.Del` | overlay/uClinux-dist/lib/jansson/jansson-2.3/src/hashtable.c:116-146 | the abstract map without the key, failure exactly when it is not there, the rest of the ring in its old order |
| `HashTables.HashTable.Clear` | overlay/uClinux-dist/lib/jansson/jansson-2.3/src/hashtable.c:291-305 | an empty map and ring, every value given up once in ring order, the prime unchanged |
| `HashTables.HashTable.IterNext` | overlay/uClinux-dist/lib/jansson/jansson-2.3/src/hashtable.c:328-334 | the next pair of the ring, or NULL behind the last |
| `HashTables.HashTable.IterAt` | overlay/uClinux-dist/lib/jansson/jansson-2.3/src/hashtable.c:312-326 | the pair of the key, or NULL exactly when the key is not in the map |
| `HashTables.HashTable.Replace` | overlay/uClinux-dist/lib/jansson/jansson-2.3/src/hashtable.c:354-360 | hashtable_iter_set changes the value of one key and nothing else in the map |
| `HashTableWalk.Run` | overlay/uClinux-dist/lib/jansson/jansson-2.3/src/hashtable.c:197-305 | after any sequence of set, del and clear the invariant holds, and get and size agree with a plain map |
| `HashTableWalk.Walk` | overlay/uClinux-dist/lib/jansson/jansson-2.3/src/hashtable.c:307-334 | what an iteration visits and deletes is the function of ring order and plan given by `Visits` and `Gone`: every surviving pair is visited, none twice, in the order of the ring, while pairs other than the current one are deleted |
| `HashTableWalk.VisitedOrGone` | overlay/uClinux-dist/lib/jansson/jansson-2.3/src/hashtable.c:307-334 | a pair the walk does not visit was deleted at an earlier turn, while it was not the current one |
| `HashTableWalk.VisitsInOrder` | overlay/uClinux-dist/lib/jansson/jansson-2.3/src/hashtable.c:328-334 | deletions on the way never send the walk back: what it visits is a subsequence of the ring |
| `HashTableWalk.AfterDrop` | overlay/uClinux-dist/lib/jansson/jansson-2.3/src/hashtable.c:116-146 | a deletion during the walk leaves the cursor on its pair, and the pairs before and behind it are the same ones without the deleted |
| `JsonObjects.JsonObject.SetNew` | overlay/uClinux-dist/lib/jansson/jansson-2.3/src/value.c:76-108 | succeeds exactly for a valid key and a value that is not the object itself; otherwise nothing changes and the value is given up; live serials stay ordered by first insertion |
| `JsonObjects.JsonObject.Del` | overlay/uClinux-dist/lib/jansson/jansson-2.3/src/value.c:110-119 | the key goes, serials of the others keep their order |
| `JsonObjects.JsonObject.Clear` | overlay/uClinux-dist/lib/jansson/jansson-2.3/src/value.c:121-134 | numbering starts again on an empty object, every value given up once in the order of the table |
| `JsonObjects.SerialsDiffer` | overlay/uClinux-dist/lib/jansson/jansson-2.3/src/value.c:89-91 | in every reachable object live serials are pairwise distinct |
| `JsonObjects.OrderedSet` | overlay/uClinux-dist/lib/jansson/jansson-2.3/src/value.c:89-91 | a fresh serial is above all live ones, and replacing a value disturbs no order although a serial is used up |
| `JsonObjects.KeysInOrder` | overlay/uClinux-dist/lib/jansson/jansson-2.3/src/dump.c:293-318 | the key table sorted by serial lists exactly the held keys, in the order each was first inserted since it was last deleted |
| `JsonApi.DumpedByBirth` | overlay/uClinux-dist/lib/jansson/jansson-2.3/src/dump.c:293-357 | what the dumper takes for granted of an object node holds of an object kept by set, del and clear, and its PRESERVE_ORDER key order is the order of first insertion since the last deletion |
| `JsonArrays.JsonArray.Grow` | overlay/uClinux-dist/lib/jansson/jansson-2.3/src/value.c:397-424 | room for the requested amount in the same table or in one of max(size + amount, 2 size), the elements being in the returned table |
| `JsonArrays.JsonArray.AppendNew` | overlay/uClinux-dist/lib/jansson/jansson-2.3/src/value.c:426-449 | sequence append, refused for NULL and for the array itself |
| `JsonArrays.JsonArray.InsertNew` | overlay/uClinux-dist/lib/jansson/jansson-2.3/src/value.c:451-489 | sequence insertion at any index, shifted in place or spliced into a grown table |
| `JsonArrays.JsonArray.SetNew` | overlay/uClinux-dist/lib/jansson/jansson-2.3/src/value.c:358-382 | sequence update, the old element given up |
| `JsonArrays.JsonArray.Remove` | overlay/uClinux-dist/lib/jansson/jansson-2.3/src/value.c:491-508 | sequence removal; the move stays inside the table if and only if the array was not full |
| `JsonArrays.FullTable` | overlay/uClinux-dist/lib/jansson/jansson-2.3/src/value.c:504 | concrete witness: eight appends and one removal, and the move reads one slot beyond the table |
| `JsonArrays.JsonArray.Clear` | overlay/uClinux-dist/lib/jansson/jansson-2.3/src/value.c:510-524 | empty, every element given up once |
| `JsonArrays.JsonArray.Extend` | overlay/uClinux-dist/lib/jansson/jansson-2.3/src/value.c:526-546 | sequence concatenation, also of an array with itself |
| `JsonArrays.Run` | overlay/uClinux-dist/lib/jansson/jansson-2.3/src/value.c:305-546 | any run of these operations on two arrays, which may extend themselves and one another, leaves each with the sequence a plain sequence would be, entries never above capacity |
| `RefCounts.Store.IncRef` | overlay/uClinux-dist/lib/jansson/jansson-2.3/src/jansson.h:91-97 | one more reference, singletons excepted |
| `RefCounts.Store.DecRef` | overlay/uClinux-dist/lib/jansson/jansson-2.3/src/jansson.h:102-107 | conservation survives the cascade of deletions, which ends; only values under the given one are touched, a value is freed exactly when no slot and no owner refers to it, and values that keep one another alive stay |
| `RefCounts.Store.Delete` | overlay/uClinux-dist/lib/jansson/jansson-2.3/src/value.c:815-833 | a dying container gives up each slot once, and no deletion it sets off comes back to it |
| `RefCounts.CountDown` | overlay/uClinux-dist/lib/jansson/jansson-2.3/src/jansson.h:102-107 | giving up one outside reference balances the count of the value against slots and owners |
| `RefCounts.SlotOut` | overlay/uClinux-dist/lib/jansson/jansson-2.3/src/value.c:326-335 | a slot given up by a dying container balances as an outside reference |
| `RefCounts.NoLeak` | overlay/uClinux-dist/lib/jansson/jansson-2.3/src/value.c:804-836 | when the caller owns nothing, every value of an acyclic store but the singletons is freed |
| `RefCounts.AliveIffRooted` | overlay/uClinux-dist/lib/jansson/jansson-2.3/src/jansson.h:91-107 | at any time the live values of an acyclic store are exactly those that something the caller owns leads to |
| `RefCounts.Link` | overlay/uClinux-dist/lib/jansson/jansson-2.3/src/value.c:426-449 | putting references into a container keeps an acyclic store acyclic if and only if none of them leads to the container; the guard of the source sees only the container itself |
| `RefCounts.Store.Drop` | overlay/uClinux-dist/lib/jansson/jansson-2.3/src/value.c:378-379 | replacing or removing an element leaves the container alive with the rest of its slots, whatever cycles there are, because the caller has hold of it; no reference appears, and the owned values lead to it as before |
| `RefCounts.Store.ArrayAppendNew` | overlay/uClinux-dist/lib/jansson/jansson-2.3/src/value.c:426-449 | the stolen reference ends in the new slot, or is given up on failure; acyclic values stay so if and only if the value does not lead to the array |
| `RefCounts.Store.ArrayInsertNew` | overlay/uClinux-dist/lib/jansson/jansson-2.3/src/value.c:451-489 | the same for insertion at an index |
| `RefCounts.Store.ArraySetNew` | overlay/uClinux-dist/lib/jansson/jansson-2.3/src/value.c:358-382 | the old element is given up, the new one stored, every count still conserved; acyclic values stay so if and only if the new one does not lead to the array |
| `RefCounts.Store.ArrayRemove` | overlay/uClinux-dist/lib/jansson/jansson-2.3/src/value.c:491-508 | one slot less, its reference given up; the caller still has hold of the array, and acyclic values stay so |
| `RefCounts.Store.ArrayClear` | overlay/uClinux-dist/lib/jansson/jansson-2.3/src/value.c:510-524 | every reference given up once; the caller still has hold of the array, and acyclic values stay so |
| `RefCounts.Store.ArrayExtend` | overlay/uClinux-dist/lib/jansson/jansson-2.3/src/value.c:526-546 | every copied element gains exactly one reference, for an array extended with itself too; acyclic values stay so if and only if no element leads to the array |
| `RefCounts.Store.ObjectSetNew` | overlay/uClinux-dist/lib/jansson/jansson-2.3/src/value.c:76-97 | the value replaces that of an existing key or becomes a new pair; the old one is given up; self-insertion is refused and the value given up; acyclic values stay so if and only if the new one does not lead to the object |
| `RefCounts.Store.ObjectDel` | overlay/uClinux-dist/lib/jansson/jansson-2.3/src/hashtable.c:116-146 | the pair goes and its reference is given up; the caller still has hold of the object, and acyclic values stay so |
| `RefCounts.Store.ObjectClear` | overlay/uClinux-dist/lib/jansson/jansson-2.3/src/hashtable.c:148-160 | every reference given up once; the caller still has hold of the object, and acyclic values stay so |
| `RefCountRuns.Client.Run` | overlay/uClinux-dist/lib/jansson/jansson-2.3/src/value.c:358-546 | over any sequence of operations by a caller that passes what it owns or has borrowed, between any two of them every count equals slots plus owned references, each does what it should, and a cycle comes into being exactly at an insertion of something that leads to the container |
| `RefCountRuns.Client.Apply` | overlay/uClinux-dist/lib/jansson/jansson-2.3/src/value.c:76-134 | each single operation, with NULL for a reference that is not there |
| `RefCountRuns.RunAcyclic` | overlay/uClinux-dist/lib/jansson/jansson-2.3/src/value.c:358-546 | a run without such an insertion keeps the values acyclic |
| `RefCountRuns.CycleLives` | overlay/uClinux-dist/lib/jansson/jansson-2.3/src/jansson.h:102-107 | a cycle survives whatever else is given up |
| `RefCountRuns.Client.Finish` | overlay/uClinux-dist/lib/jansson/jansson-2.3/src/value.c:804-836 | after the caller has given up all it owns, every value is freed if and only if there was no cycle |
| `RefCountRuns.Session` | overlay/uClinux-dist/lib/jansson/jansson-2.3/src/jansson.h:91-107 | a whole program leaks if and only if it leaves a cycle behind, and none that never closes one does |
| `Utf8.EncodeInto` | overlay/uClinux-dist/lib/jansson/jansson-2.3/src/utf.c:11-45 | the bytes of section 3 of RFC 3629 up to 0x10FFFF, surrogates included, else -1 and an untouched buffer |
| `Utf8.CheckFull` | overlay/uClinux-dist/lib/jansson/jansson-2.3/src/utf.c:83-137 | accepts exactly well-formed sequences: no overlong form, no surrogate, nothing above 0x10FFFF |
| `Utf8.Iterate` | overlay/uClinux-dist/lib/jansson/jansson-2.3/src/utf.c:139-163 | the code point and the length of the next character, or failure; the position unchanged at the terminator |
| `Utf8.DecodeInvertsEncode` | overlay/uClinux-dist/lib/jansson/jansson-2.3/src/utf.c:11-137 | decoding the encoding of a Unicode scalar value gives it back with its length, whatever follows |
| `Utf8.EncodeInvertsDecode` | overlay/uClinux-dist/lib/jansson/jansson-2.3/src/utf.c:11-137 | what decodes is the encoding of what it decodes to |
| `Utf8.CheckString` | overlay/uClinux-dist/lib/jansson/jansson-2.3/src/utf.c:165-190 | accepts exactly the valid strings |
| `Utf8.ValidOfEncoding` | overlay/uClinux-dist/lib/jansson/jansson-2.3/src/utf.c:165-190 | every concatenation of encoded scalar values is valid |
| `Utf8.EncodingOfValid` | overlay/uClinux-dist/lib/jansson/jansson-2.3/src/utf.c:165-190 | every valid string is such a concatenation |
| `Utf8.TableIff` | overlay/uClinux-dist/lib/jansson/jansson-2.3/src/utf.c:47-163 | a string starts with a character exactly when its first bytes are in the byte table of section 4 of RFC 3629, and the character is the number their payload bits spell |
| `StrBuffers.StrBuffer.AppendBytes` | overlay/uClinux-dist/lib/jansson/jansson-2.3/src/strbuffer.c:68-100 | the text grows by the bytes and stays terminated with length below size; refused exactly when size_t would overflow, then nothing changes |
| `StrBuffers.StrBuffer.Pop` | overlay/uClinux-dist/lib/jansson/jansson-2.3/src/strbuffer.c:102-111 | takes off the last byte, NUL from an empty buffer |
| `Streams.Stream.Get` | overlay/uClinux-dist/lib/jansson/jansson-2.3/src/load.c:142-203 | delivers the decodable prefix byte by byte and then the end or error code for ever; position, line and column describe the consumed prefix |
| `Streams.Stream.Unget` | overlay/uClinux-dist/lib/jansson/jansson-2.3/src/load.c:205-221 | undoes the last get, line and column included, so the next get returns the same byte |
| `Streams.ColumnCountsCodePoints` | overlay/uClinux-dist/lib/jansson/jansson-2.3/src/load.c:186-196 | the column is the number of code points since the last newline |
| `Streams.BytesAreNotCodes` | overlay/uClinux-dist/lib/jansson/jansson-2.3/src/load.c:142-203 | no byte of valid UTF-8 reads as the end or error code through a signed char |
| `Lexers.Lexer.UngetUnsave` | overlay/uClinux-dist/lib/jansson/jansson-2.3/src/load.c:247-255 | gives back the held byte and takes it off the saved text, which is still exactly what has been read of the token |
| `Lexers.Lexer.ReadString` | overlay/uClinux-dist/lib/jansson/jansson-2.3/src/load.c:291-344 | the saved text is exactly the bytes of the string literal up to its closing quote, and a literal the grammar rejects is rejected |
| `Lexers.Lexer.DecodeString` | overlay/uClinux-dist/lib/jansson/jansson-2.3/src/load.c:346-444 | the copy loop computes the value of the literal, surrogate pairs included, inside a buffer sized from the source text |
| `JsonDerivation.HexSpelling` | overlay/uClinux-dist/lib/jansson/jansson-2.3/src/load.c:268-289 | four hex digits, each in upper or lower case, spell their number in base 16 |
| `Lexers.Lexer.ScanNumber` | overlay/uClinux-dist/lib/jansson/jansson-2.3/src/load.c:452-545 | the longest number token, integers with their value and range check |
| `Lexers.Lexer.Next` | overlay/uClinux-dist/lib/jansson/jansson-2.3/src/load.c:547-615 | lex_scan through pushback, saving and cached buffers returns the token and the rest of the text that the grammar function gives; for every token, a rejected one too, saved_text is exactly the bytes read since the white space in front of it |
| `Lexers.Lexer.SaveCached` | overlay/uClinux-dist/lib/jansson/jansson-2.3/src/load.c:257-265 | the saved text gains exactly the rest of the buffered character and the stream stands in front of the next one |
| `Parsers.ParseObject` | overlay/uClinux-dist/lib/jansson/jansson-2.3/src/load.c:650-721 | the loop over members agrees with the grammar, duplicate keys and reject flag included |
| `Parsers.ParseArray` | overlay/uClinux-dist/lib/jansson/jansson-2.3/src/load.c:723-761 | the loop over elements agrees with the grammar |
| `Parsers.ParseValue` | overlay/uClinux-dist/lib/jansson/jansson-2.3/src/load.c:763-816 | recursive descent over the stream returns the value and the rest that the grammar gives, and ends |
| `Parsers.Loads` | overlay/uClinux-dist/lib/jansson/jansson-2.3/src/load.c:818-894 | the loader through stream, lexer and parser is the function `Load` on the text, for every flag combination |
| `JsonDerivation.LoadIffDerives` | overlay/uClinux-dist/lib/jansson/jansson-2.3/src/load.c:547-894 | the loader gives a value if and only if the text is one value of section 2 of RFC 4627 between white space (bytes 9, 10, 13, 32) that denotes it, in valid UTF-8; keys distinct with JSON_REJECT_DUPLICATES and the later one counting without, array or object at the root unless JSON_DECODE_ANY, nothing behind it unless JSON_DISABLE_EOF_CHECK |
| `JsonDerivation.ValueRead` | overlay/uClinux-dist/lib/jansson/jansson-2.3/src/load.c:650-816 | every syntax tree, in front of anything that cannot continue its last token, is read as its value and leaves what follows |
| `JsonDerivation.ValueFound` | overlay/uClinux-dist/lib/jansson/jansson-2.3/src/load.c:650-816 | whatever value is read, the bytes consumed are white space and the text of a syntax tree with that value |
| `StringCodec.StringRoundTrip` | overlay/uClinux-dist/lib/jansson/jansson-2.3/src/dump.c:65-150 | for every NUL-free valid UTF-8 string the scanner reads back from the dumped literal the same bytes, raw or ASCII, surrogate pairs included |
| `StringCodec.PairDenotes` | overlay/uClinux-dist/lib/jansson/jansson-2.3/src/dump.c:125-136 | a code point above the basic plane survives as two escapes |
| `StringCodec.EmitOk` | overlay/uClinux-dist/lib/jansson/jansson-2.3/src/dump.c:65-150 | dump_string succeeds exactly on valid UTF-8 |
| `StringCodec.UnescapeShrinks` | overlay/uClinux-dist/lib/jansson/jansson-2.3/src/load.c:346-352 | the decoded text never outgrows its source, so the buffer is large enough |
| `StringCodec.UnescapeNulFree` | overlay/uClinux-dist/lib/jansson/jansson-2.3/src/load.c:291-444 | no NUL can enter a string through an escape |
| `JsonRoundTrip.IntRoundTrip` | overlay/uClinux-dist/lib/jansson/jansson-2.3/src/dump.c:181-192 | a dumped 64-bit integer scans back as itself, whatever may follow it |
| `JsonRoundTrip.ValueRoundTrip` | overlay/uClinux-dist/lib/jansson/jansson-2.3/src/dump.c:166-401 | the text of any value, in front of anything that cannot continue it, parses to that value and leaves the rest |
| `JsonRoundTrip.PrintSound` | overlay/uClinux-dist/lib/jansson/jansson-2.3/src/dump.c:166-401 | a dump is itself NUL-free valid UTF-8, so the stream delivers all of it |
| `JsonRoundTrip.LoadInvertsDump` | overlay/uClinux-dist/lib/jansson/jansson-2.3/src/load.c:818-849 | loading a dump gives back the dumped value, for every finite value without reals and every combination of dump and load flags |
| `JsonLayout.DumpShape` | overlay/uClinux-dist/lib/jansson/jansson-2.3/src/dump.c:166-401 | for every flag combination the dump is the text of a well-formed syntax tree with exactly the white space JSON_INDENT and JSON_COMPACT ask for, the escapes JSON_ENSURE_ASCII asks for and no others, and the members of the value in the order the sorting flags ask for |
| `JsonLayout.CompactDump` | overlay/uClinux-dist/lib/jansson/jansson-2.3/src/dump.c:262-275 | with JSON_COMPACT and no indent no byte outside string literals is a space or a newline |
| `JsonLayout.IndentedDump` | overlay/uClinux-dist/lib/jansson/jansson-2.3/src/dump.c:43-63 | with JSON_INDENT(n), n > 0, every comma and every opening bracket of a non-empty container ends a line, every closing one starts a line, and a line inside d open containers starts with exactly n*d spaces, d counted in the bytes before it |
| `JsonLayout.AsciiDump` | overlay/uClinux-dist/lib/jansson/jansson-2.3/src/dump.c:65-150 | with JSON_ENSURE_ASCII every byte is below 0x80 |
| `JsonLayout.WrittenOrder` | overlay/uClinux-dist/lib/jansson/jansson-2.3/src/dump.c:152-164 | JSON_SORT_KEYS puts keys in ascending order of their first differing byte, a prefix first, whatever the serials; JSON_PRESERVE_ORDER alone in order of the serials; otherwise they stay as they are |
| `JsonPrint.ReorderKeepsMeaning` | overlay/uClinux-dist/lib/jansson/jansson-2.3/src/dump.c:293-357 | sorting members by key or by serial at every level changes no meaning |
| `JsonOrder.SortedUnique` | overlay/uClinux-dist/lib/jansson/jansson-2.3/src/dump.c:152-164 | with distinct keys and serials the order qsort produces is determined |
| `JsonOrder.ArrangeKeepsMap` | overlay/uClinux-dist/lib/jansson/jansson-2.3/src/dump.c:300-318 | the sorted key table denotes the same map |
| `Dumpers.DumpString` | overlay/uClinux-dist/lib/jansson/jansson-2.3/src/dump.c:65-150 | through any sink: it stops at the first call that fails with a prefix of the text written, succeeds exactly when the string is valid UTF-8 and no call failed, and has then written the whole text |
| `Dumpers.DumpMembers` | overlay/uClinux-dist/lib/jansson/jansson-2.3/src/dump.c:293-391 | both member loops, over the sorted key table and along the hash table, write the members in the flag's order, whatever the sink, unless one of the calls made fails; failure exactly when a member cannot be dumped |
| `Dumpers.DoDump` | overlay/uClinux-dist/lib/jansson/jansson-2.3/src/dump.c:166-401 | terminates on every graph, shared or cyclic, with the number of unvisited containers as measure; after success the visited flags are as before; unless one of the calls made fails, it succeeds exactly on what can be dumped, with its text |
| `Dumpers.DumpCallback` | overlay/uClinux-dist/lib/jansson/jansson-2.3/src/dump.c:439-447 | every visited flag is clear afterwards whatever the sink does; unless one of the calls made fails it succeeds exactly on acyclic values with valid strings (a container unless any value is allowed), and has then written the text of the tree |
| `Dumpers.DumpsIff` | overlay/uClinux-dist/lib/jansson/jansson-2.3/src/dump.c:211-258 | a value can be written exactly when no container is reachable from itself and all reachable strings are valid |
| `ValueGraph.UnfoldIffAcyclic` | overlay/uClinux-dist/lib/jansson/jansson-2.3/src/dump.c:218-221 | unfolding with visited flags finds a tree exactly when no reachable container lies on a cycle |
| `ValueGraph.FailureHasPath` | overlay/uClinux-dist/lib/jansson/jansson-2.3/src/dump.c:275-279 | a failed dump exhibits a path that comes back to a container under way |
| `JsonApi.DumpThenLoad` | overlay/uClinux-dist/lib/jansson/jansson-2.3/src/dump.c:439-447 | dumping a graph from the heap and loading what was written gives the value of the graph, exactly when it is acyclic |
| `ValueOps.Equal` | overlay/uClinux-dist/lib/jansson/jansson-2.3/src/value.c:838-866 | json_equal holds exactly when the two acyclic values mean the same, key order apart; hence it is an equivalence |
| `ValueOps.EqualObjects` | overlay/uClinux-dist/lib/jansson/jansson-2.3/src/value.c:250-266 | equal sizes and a one-way scan over the keys are enough |
| `ValueOps.SameSizeSubmap` | overlay/uClinux-dist/lib/jansson/jansson-2.3/src/value.c:255-263 | a map inside another of the same size is that map |
| `ValueOps.DeepCopy` | overlay/uClinux-dist/lib/jansson/jansson-2.3/src/value.c:897-924 | the copy means the same as the original and is made of new nodes and singletons only, so that they share nothing that can change |
| `ValueOps.DeepCopyObject` | overlay/uClinux-dist/lib/jansson/jansson-2.3/src/value.c:285-300 | members copied one by one into any table order still make the same object |
| `ValueOps.UnfoldLocal` | overlay/uClinux-dist/lib/jansson/jansson-2.3/src/value.c:897-924 | what a value means depends on nothing outside a closed part of the heap |
| `PllReconfig.TakesCommand` | hdl/REPLL.v:730-928 | a command presented to the idle writer is latched and its bits stand in the shift register in writing order, nominal counts split one cycle earlier |
| `PllReconfig.WritesBit` | hdl/REPLL.v:1232-1322 | each cycle writes the next bit one address lower; after the last bit the field is complete and the writer idle |
| `PllReconfig.Advance` | hdl/REPLL_CONTROL.sv:69-199 | controller and writer together move from phase to phase of the job on every clock edge, whatever the other inputs do |
| `PllReconfig.OneTrigger` | hdl/REPLL_CONTROL.sv:111-199 | over every run, one trigger with stable m, n, c makes the writer take exactly M, N, C0 high, C0 low in this order and then one reconfig |
| `PllReconfig.JobDone` | hdl/REPLL.v:494-619 | afterwards high plus low of M at 36..53 and of N at 18..35 equal the counts and differ by their parity, with odd and bypass bits, C is at 55..62 and 64..71, and no other cache bit changed |
| `PllReconfig.NominalField` | hdl/REPLL.v:929-998 | the split of a nominal count reads back as the count, its parity and whether it is one |
| `PllReconfig.FinalBits` | hdl/REPLL.v:1232-1322 | every one of the 144 cache bits after the four writes |
| `PllReconfig.SeventyCycles` | hdl/REPLL_CONTROL.sv:69-199 | undisturbed, the reconfiguration is requested exactly 70 cycles after the trigger |
| `PllReconfig.PowersUp` | hdl/REPLL_CONTROL.sv:188-196 | after sys_reset two cycles lead to Idle with the writer waking up and the cache untouched |
| `PllReconfig.WriterRegisters.Clock` | hdl/REPLL.v:730-928 | the clocked registers and the RAM of the writer step as the state machine does |
| `PllReconfig.Board.Clock` | hdl/REPLL_CONTROL.sv:83-199 | controller registers and writer wired together step as the composed machine does |
| `RequestStream.Stage.Emit` | overlay/uClinux-dist/user/confrd/confrd.c:39-54 | the staged image stays a gap-free concatenation of complete requests; refused exactly when no END would fit behind it |
| `RequestStream.Stage.EmitEnd` | overlay/uClinux-dist/user/confrd/parser_vec.c:541-552 | END is refused exactly when its own reserve is used up |
| `RequestStream.Stage.EmitPreVectors` | overlay/uClinux-dist/user/confrd/parser_vec.c:556-570 | the bytes of the PLL request, refused exactly when no END would fit behind it |
| `RequestStream.Stage.EmitChangeTarget` | overlay/uClinux-dist/user/confrd/parser_vec.c:574-586 | the bytes of the target request, the team number masked to five bits, refused exactly when no END would fit behind it |
| `RequestStream.DecodeInverts` | overlay/uClinux-dist/user/confrd/req.c:19-59 | an image has one reading: decoding gives back the emitted list, in order |
| `RequestStream.PrintMem` | overlay/uClinux-dist/user/confrd/req.c:37-59 | the loop is the flat walk, with the bytes it leaves |
| `RequestStream.FlatWalkReads` | overlay/uClinux-dist/user/confrd/req.c:37-59 | the flat walk gives back the requests of an image in order and leaves an incomplete one; with an end flag it stops at the first END, which it leaves too |
| `RequestStream.Sram.Write` | overlay/uClinux-dist/user/confrd/sram.c:71-86 | the byte-swapped words read as the bytes written, the rest of the memory unchanged, refused exactly when out of range |
| `RequestStream.Sram.Read` | overlay/uClinux-dist/user/confrd/sram.c:52-67 | the bytes of the memory image, so write and read are inverse |
| `RequestStream.WrittenBytes` | overlay/uClinux-dist/user/confrd/sram.c:71-86 | ntohs on 16-bit loads keeps the byte order of the image |
| `RequestStream.WordsOf` | overlay/uClinux-dist/user/confrd/sram.c:52-86 | each 16-bit word of the device is two bytes of the image, the first as the high half |
| `RequestStream.WalkWindow` | overlay/uClinux-dist/user/confrd/confrd.c:266-334 | one 256-byte window visits exactly the requests wholly inside it and stops at the first that is not, or after END |
| `RequestStream.NextIsNear` | overlay/uClinux-dist/user/confrd/confrd.c:266-334 | each window starts 252 bytes behind the one before, and 246 only when a test vector of twelve bytes stands there |
| `RequestStream.ProcessResults` | overlay/uClinux-dist/user/confrd/confrd.c:266-338 | the overlapping windows visit each request of the flat walk once, in order, and end; failure if and only if some window does not fit in the SRAM, and then exactly the requests before that window have been visited |
| `RequestStream.WindowsFit` | overlay/uClinux-dist/user/confrd/confrd.c:267-269 | all windows fit when one from the END fits |
| `RequestStream.WindowsFail` | overlay/uClinux-dist/user/confrd/confrd.c:266-334 | windows start at multiples of six, so a request in the last eight bytes of the SRAM is never all inside one that fits: without an END in front of it the walk fails |
| `RequestStream.SameTypesSameVisits` | overlay/uClinux-dist/user/confrd/confrd.c:276-278 | results written by the device into the requests do not change the walk |
| `RequestStream.Laid` | overlay/uClinux-dist/user/confrd/confrd.c:266-334 | in a memory holding emitted requests the walk visits exactly these at their offsets and goes on behind them |
| `RequestStream.SendAndProcess` | overlay/uClinux-dist/user/confrd/confrd.c:372-392 | staging, flushing to the SRAM and the windowed walk agree on every request and offset; success exactly when the END fitted and all windows do, which is so when a window from the END fits; without an END it always fails |
| `Requests.Sized` | overlay/uClinux-dist/user/confrd/req.c:19-34 | for every request the size taken from the type bits of its first byte is the length of its struct: twelve bytes for a test vector, six for the others |
| `Requests.OneRequest` | overlay/uClinux-dist/user/confrd/confrd.h:48-109 | two requests differ in their bytes |
| `Requests.ImageDecides` | overlay/uClinux-dist/user/confrd/confrd.h:48-109 | an image is the image of one list of requests only |
| `Requests.VectorMeans` | overlay/uClinux-dist/user/confrd/parser_vec.c:286-294 | the twelve bytes of a vector: 32, the input, output and don't-care masks with pin p at bit p of three big-endian bytes, cycles and mode in the eighth byte, 0 |
| `Requests.MaskMeans` | overlay/uClinux-dist/user/confrd/parser_vec.c:344-360 | the mask bytes of a pin definition, a clock or a trigger have bit p set exactly for a declared pin p |
| `Requests.Starts` | overlay/uClinux-dist/user/confrd/confrd.c:39-54 | request k of a stream starts at 6k plus 6 for every vector before it |
| `Requests.SendRequests` | overlay/uClinux-dist/user/confrd/confrd.c:372-392 | staged requests are found in the SRAM with their bytes at those offsets, and a walk that succeeds visits exactly these offsets and the END; success when a window fits behind the requests, failure when no END does |
| `RequestStream.EmitRetrying` | overlay/uClinux-dist/user/confrd/parser_common.c:205-214 | a request refused for space is emitted again after exactly one flush, which fills the SRAM with what was staged, and then fits; otherwise nothing is written |
| `RequestStream.EmitAll` | overlay/uClinux-dist/user/confrd/parser_common.c:139-218 | over a whole file the images written to the SRAM hold, flush by flush and in order, exactly the requests emitted that are no longer staged: none is lost, repeated or reordered |
| `RequestStream.CarriedDecodes` | overlay/uClinux-dist/user/confrd/req.c:37-59 | the flat walk over such an image gives back the requests and the END if it fitted |
| `RequestStream.RefusedFlush` | overlay/uClinux-dist/user/confrd/confrd.c:44-45 | a flush forced by a six-byte request never holds an END; one forced by a vector holds one exactly when 14 bytes are free |
| `RequestStream.FlushWithoutEnd` | overlay/uClinux-dist/user/confrd/confrd.c:378-380 | concrete witness: 349524 pin definitions fill the stage so that the flushed image has no END |
| `VectorFile.Reader.Take` | overlay/uClinux-dist/user/confrd/parser_common.c:205-214 | a line of any section with its flush and retry: accepted exactly when it reads as something for the pins declared so far, its requests emitted once although the PLL settings may go out before the flush |
| `VectorFile.Reader.ParseFile` | overlay/uClinux-dist/user/confrd/parser_common.c:139-218 | a file is accepted exactly when every line reads as something where it stands; its requests are then those the lines tell, one each and the PLL settings before the first vector, and flushed images and stage hold them all in order |
| `VectorFile.Reader.RunFile` | overlay/uClinux-dist/user/confrd/parser_vec.c:589-614 | the last image holds the remaining requests and END at the sums of their sizes and a walk that succeeds visits these; EAGAIN with nothing sent exactly when END does not fit |
| `VectorFile.ExpectedIsOwn` | overlay/uClinux-dist/user/confrd/confrd.c:291-320 | the expected outputs shown for a vector are its own when no vector was flushed before its image, and with different outputs only then |
| `SpiFlash.Flash.Xfer` | overlay/uClinux-dist/user/spi_flash/spi_flash_model.c:225-448 | every command answers and changes the state as specified, and after success a read returns for each address the byte stored since the last erase covering it, else 0xFF; a sector marked clear is all 0xFF |
| `SpiFlash.Flash.StoreBytes` | overlay/uClinux-dist/user/spi_flash/spi_flash_model.c:404-416 | a page program stores up to the first byte that was not erased, and fails exactly when there is one |
| `SpiFlash.Flash.MemClear` | overlay/uClinux-dist/user/spi_flash/spi_flash_model.c:149-157 | every sector clear, unprotected and 0xFF |
| `SpiFlash.BusyKeeps` | overlay/uClinux-dist/user/spi_flash/spi_flash_model.c:87-95 | while busy no command changes anything |
| `SpiFlash.OnlyEraseChanges` | overlay/uClinux-dist/user/spi_flash/spi_flash_model.c:344-372 | a byte other than 0xFF changes only by an accepted erase covering it, and then to 0xFF |
| `SpiFlash.ProgramReadsBack` | overlay/uClinux-dist/user/spi_flash/spi_flash_model.c:375-420 | a successful program reads back and leaves all other bytes alone |
| `SpiFlash.AlwaysCareful` | overlay/uClinux-dist/user/spi_flash/spi_flash_model.c:404-416 | in every run each store goes to a byte that read 0xFF |
| `SpiFlash.RunFlash` | overlay/uClinux-dist/user/spi_flash/spi_flash_model.c:201-448 | the flash driven by any sequence of commands and timer expiries remembers what the abstract run does |
| `FlashTrace.Answers` | overlay/uClinux-dist/user/spi_flash/spi_flash_model.c:225-448 | exactly the transfers with a known opcode, the right length, a buffer where one is needed and an idle flash are accepted, erases and programs also only with WEL and an address in range, and everything unknown is |
| `FlashTrace.LatchedIff` | overlay/uClinux-dist/user/spi_flash/spi_flash_model.c:320-341 | over every run WEL holds exactly when a [0x06] was accepted with no accepted [0x04] after it |
| `FlashTrace.BusyIff` | overlay/uClinux-dist/user/spi_flash/spi_flash_model.c:170-210 | over every run BUSY holds exactly from an accepted erase or completed program to the next expiry of the timer |
| `FlashTrace.WritesNeedEnable` | overlay/uClinux-dist/user/spi_flash/spi_flash_model.c:302-420 | an erase or a program is accepted only behind such a write enable and with no erase or program under way |
| `FlashTrace.StoredIff` | overlay/uClinux-dist/user/spi_flash/spi_flash_model.c:302-420 | over every run a byte other than 0xFF is there exactly when a program stored it at that big-endian address and no erase of the chip or its sector came after |
| `FlashTrace.Session` | overlay/uClinux-dist/user/spi_flash/spi_flash_model.c:225-448 | the heap model driven by any sequence of transfers and expiries gives exactly these answers and fills the buffers with the identification, status and data bytes |
| `VectorScan.SplitRead` | overlay/uClinux-dist/user/confrd/parser_common.c:113-135 | non-empty words free of the bytes 9, 32 and 44, joined by non-empty runs of exactly these, are the words the line is split into |
| `VectorScan.SplitFound` | overlay/uClinux-dist/user/confrd/parser_common.c:113-135 | every line that neither starts nor ends with such a byte is its words joined that way |
| `VectorScan.DefinitionIff` | overlay/uClinux-dist/user/confrd/parser_vec.c:320-358 | the words of a line are pins in range exactly when the line is a definition of the grammar, and they are the pins it means |
| `VectorScan.PlainDefinition` | overlay/uClinux-dist/user/confrd/parser_vec.c:320-358 | A or Q and a decimal number below 24 for each pin, with any separators, is a definition of these pins in this order |
| `VectorScan.LineIff` | overlay/uClinux-dist/user/confrd/parser_vec.c:204-281 | a vector line is accepted exactly when it is made of pin characters 0, 1, X, x, waits W or w with a number of 1 to 32 and triggers T or t, with any separators, one character for every pin, X on outputs only and one setting at most; it is read as those characters, cycles and mode |
| `VectorLines.Tokenizer` | overlay/uClinux-dist/user/confrd/parser_common.c:113-135 | the words of a line between runs of blanks and commas, an empty one if it starts with those; refused at the limit, so at most 47 pins fit a definition |
| `VectorLines.ParserInfo.ParsePindef` | overlay/uClinux-dist/user/confrd/parser_vec.c:301-362 | returns 0 exactly for a definition of at most 47 pins below 24 and then declares them in order, with exactly the declared outputs in the bitmask |
| `VectorLines.ParserInfo.ParseClock` | overlay/uClinux-dist/user/confrd/parser_vec.c:372-426 | returns 0 exactly for a definition of fewer than 24 inputs; then exactly the named inputs are in the clock mask, otherwise it is unchanged |
| `VectorLines.ParserInfo.ParseTrigger` | overlay/uClinux-dist/user/confrd/parser_vec.c:429-484 | the same for outputs and the trigger mask |
| `VectorLines.ParseVector` | overlay/uClinux-dist/user/confrd/parser_vec.c:201-295 | accepts exactly the lines of the grammar that fit the declared pins; the input, output and don't-care masks mark exactly the pins whose character says so, and cycles and mode read back from the metadata |
| `VectorLines.HInput` | overlay/uClinux-dist/user/confrd/parser_common.c:54-74 | pin p is printed at position 23 - p, C when clocked |
| `VectorLines.HExpected` | overlay/uClinux-dist/user/confrd/parser_common.c:89-109 | pin p is printed at position 23 - p, X when don't-care or not declared |
| `VectorLines.ShowLine` | overlay/uClinux-dist/user/confrd/parser_vec.c:201-295 | parsing any accepted line and printing the vector shows for each declared pin, at position 23 minus its number, the character the line gave |
| `VectorLines.OwnCharacter` | overlay/uClinux-dist/user/confrd/parser_vec.c:244-271 | with distinct pins a mask bit is set exactly by the pin's own character |

## Left out

- Real numbers: a real is a token carrying its text; strtod, printing with 17 digits and the locale are library behaviour.
- Memory exhaustion: every allocation succeeds, so the branches for a NULL from malloc are missing.
- Error messages: json_error_t texts are not modelled, the positions they print are (`Streams.Stream.Get`).
- Parsers.Loads: texts of a gigabyte and more; up to 0x3FFFFF00 bytes no buffer size overflows, beyond that the source drops the bytes strbuffer refuses.
- Lexers.Lexer.ScanNumber: a real too large for a double is a token here, and an error in the source.
- NUL bytes in the loader's input: the source is json_loads, whose text ends at the first NUL.
- Parsers.ParseObject: collects members in a map and elements in a sequence; the hash table and the array that the source fills while parsing are modelled in their own modules.
- HashTables.HashTable.Set: requires fewer pairs than the last prime of the table, beyond which the source would read past its 29 primes.
- HashTables.HashTable.DoRehash: the freed bucket array and freed pairs are simply no longer referred to.
- JsonObjects.JsonObject.SetNew: the serial counter does not wrap around at 32 bits.
- RefCounts.Store.IncRef: a count does not reach the value that marks singletons.
- RefCounts.Store.ObjectSetNew: the store abstracts the array table and the hash table to their slots; their own modules prove what they hand over and give up. Where a slot is given up, the caller must have hold of the container: own it, or have borrowed it from something it owns.
- ValueOps.DeepCopyObject: a copied pair goes to any place in the table; the reordering by a rehash in between is not modelled.
- PllReconfig.Advance: the states between reconfig_init and reconfig_wait are one state that lasts arbitrarily long and does not write the cache; reading parameters is never requested by the controller and is missing.
- RequestStream.ProcessResults: the HTTP requests for each vector and their failures; unknown request types, on which the source would not advance, are excluded, also among the bytes an earlier image left behind.
- RequestStream.PrintMem: unknown request types, on which the source would not end.
- RequestStream.SendAndProcess: unknown types among the stale bytes behind an image without END.
- RequestStream.Stage.Suspend: sending the image to the device always succeeds; what the device does in between is `RequestStream.SameTypesSameVisits`.
- VectorLines.Tokenizer: lines that end with a comma, where the source runs past the end of the line.
- VectorLines.ParserInfo.ParsePindef: minus signs, and lines that begin with a comma, whose empty first word the source reads on into the next.
- VectorLines.ParserInfo.ParseClock: pin numbers above 23, which the source reports and then uses.
- VectorLines.ParserInfo.ParseTrigger: pin numbers above 23, likewise.
- VectorLines.ParseVector: dot commands; numbers that do not fit an int, which a 64-bit host would cut to 32 bits.
- VectorFile.Reader.Take: the chunk that the source has allocated for a line it then refuses; no more is staged in that image.
- VectorFile.Reader.ParseFile: design and measure lines, which flush the stage and send no request of their own, and frequency lines; the PLL settings are given. Keywords, comments and trimming: the lines come trimmed and with their section.
- VectorFile.ExpectedIsOwn: the fixed size of `pi->output`, which is a growing sequence here.
- SpiFlash.Flash.Xfer: setitimer always succeeds; the status bits other than BUSY and WEL are constantly zero, as nothing sets them.
- json_object_update and its two variants, shallow copies and pack_unpack.c: they only compose the operations above.
- spi.c, the kernel drivers, the HTTP server, the LCD and ADC helpers and the test-vector pipeline in hdl/dut_if.v.
