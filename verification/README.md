# Verification of the CommonAPI D-Bus runtime

Dafny models of the algorithms of this repository whose correctness is hardest to see, with proofs of what they
promise. Code that works step by step is modelled by methods and classes that do the same steps on the same state;
their contracts tie them to pure functions, and lemmas state what those functions mean.

**The D-Bus wire format** (`WireTypes`, `Signature`, `WireFormat`, `WireErrors`, `WireOutput`, `WireInput`,
`WireRoundTrip`).
A type is a C++ type together with its deployment. `DBusOutputStream` appends to its payload, leaves a placeholder for
every array length and patches it afterwards; it refines the encoder `Enc`. `DBusInputStream` keeps a position and two
stacks and derives the padding from another formula; it refines the decoder `Dec`, which is total on arbitrary bytes.
An encoding depends on its offset modulo 8, so the round trip is proved at every offset, with a relocation lemma beside
it. It holds for a value if and only if the value is clean: strings without NUL, and in a D-Bus variant an alternative
whose signature fits its length byte and is shared by no earlier alternative. A ranged integer out of its range sets the
writer's error; `WireErrors` says which values do and what is left on the writer's stack of positions then.
Signatures are decoded by a predictive parser, from which follow uniqueness and prefix-freedom. `WireConformance` writes
down "Type System" and "Marshaling (Wire Format)" of the D-Bus Specification from type codes alone, and proves that the
encoder follows them byte for byte.

**The XML engine** (pugixml 1.2).
`TextConversion` is the in-place unescaping with lazily collapsed gaps. `XmlPrinter`, `XmlParser` and `XmlRoundTrip` are
the raw-mode printer, the in-place parser with its cut-off last character, and the theorem that connects them: what was
printed is parsed to a normal form of the tree, which is the tree itself exactly for documents in normal form.
`References` says what character references, line ends and blanks mean and what printed text looks like,
`CharacterTables` ties the model to the two tables of the code, and `MalformedDocuments` has an error for each kind.
`Transcoding` is the UTF decoding in two passes, `Chunking` and `BufferedWriter` the output buffer that cuts what it
converts. `NodeSetSort` is the three-way quicksort of node sets and `NodeSets` its use: a node set comes out in document
order without duplicates. `Documents`, `Axes` and `DocumentOrder` are the tree walks
of XPath 1.0 (sections 2.2 and 5) and the document order comparator. `SiblingLists` are the half-cyclic child lists, and
`PageAllocator` is the allocator that frees its pages by counting bytes.

**`DBusConnection`**.
`ReplyTimeout` is a step system of the dispatching threads, the timeout enforcer, the main loop and the shutdown; its
theorems hold for every interleaving. `ReplyProgress` is about its progress: a measure of the work that is left, which
every step brings down that finds something to do, and a run from every reachable state that ends all that was begun.
`MatchRules` counts match rules over runs of add, remove, connect and disconnect.

**Hashing** (`Words`, `Murmur`, `MurmurBits`).
MurmurHash3 on 32-bit words is undone step by step, which shows where it cannot collide; the hashes of pairs and tuples
chain it. `MurmurBits` has the algorithm once more in the verifier's own 32-bit operations, proves that the two are the
same function, and computes published values.

## Where the code does not do what one would expect

- A string with an embedded NUL is written in full and read up to the NUL; two alternatives of a D-Bus variant with the
  same signature are confused (`StringIsCut`, `SignedByteChangesSides`). `RoundTrip` gives the exact condition.
- A map with entries that meets an error while it is written leaves its two positions on the stack. A vector always pops
  two: those of a map inside it, if that map left any, and then its own stay behind. `StackRestored` says exactly when
  the stack is as before, `LostPositions` gives concrete values.
- Arrays of D-Bus variants and of ranged integers are aligned to 8, which the Specification does not ask for; all others
  conform to it (`Conforms`, `StartConforms`, `VariantVector`).
- The reader of a ranged integer checks the value the variable had before, not the one on the wire (`RangeIsNotRead`).
- The D-Bus Specification limits a signature to 255 characters. The writer only logs longer ones, and the length byte
  wraps; `DecSignature` reads what was then written. Such a value is clean unless it is in a D-Bus variant.
- A rule that is added with `justAddFilter` is counted but not matched on the bus until the next connect (`AddRule`).
- The comparator says that an attribute is before itself (`Compare`); the sort does not depend on it
  (`ComparatorOrders`).
- A reply or a timeout can find no main loop; the handler is then neither called nor deleted. `NoneIsForgotten` says that
  these are all the handlers that are forgotten, `DroppedRun` gives a run.
- A callback that is under way does not keep its handler alive: when the timeout comes first, its lock sections may run
  after the main loop has deleted the handler (`TouchesDeleted` for exactly when, `DeletedIsTouched` for a run). Replies
  are never made to a deleted handler (`RepliesToTheLiving`).
- The printer writes `:anonymous` for an empty name, and a TAB in an attribute value unescaped, so neither comes back
  (`ChangedDocuments`; `XmlRoundTrip.RoundTrip` gives the exact condition).

## Model

| member | source | states |
|---|---|---|
| WireRoundTrip.RoundTrip | include/CommonAPI/DBus/DBusOutputStream.hpp:155-330 | For every type, value, start offset and map iteration order: reading what was written gives the value back and ends exactly behind it, if and only if the value is clean (no NUL inside a string, the variant held by a D-Bus variant not shadowed by an earlier one of the same signature) |
| WireRoundTrip.SendAndReceive | include/CommonAPI/DBus/DBusInputStream.hpp:135-387 | The two stream classes together: arguments written to a new stream and read from its payload come back without an error exactly when they are clean and every ranged integer is within its range, and then the whole payload has been consumed |
| WireRoundTrip.Back | include/CommonAPI/DBus/DBusInputStream.hpp:136-387 | The clean direction at an arbitrary place of an arbitrary body: what stands before and after the bytes does not matter |
| WireRoundTrip.ReadIsClean | include/CommonAPI/DBus/DBusInputStream.hpp:136-387 | Whatever well-typed value is read from arbitrary bytes is clean, so an unclean value can never come back |
| WireRoundTrip.StringIsCut | src/CommonAPI/DBus/DBusInputStream.cpp:134-147 | A string with a NUL comes back cut off at its first NUL, with nothing left over |
| WireRoundTrip.UncleanString | src/CommonAPI/DBus/DBusInputStream.cpp:134-147 | So a concrete string of three characters comes back as the first one |
| WireRoundTrip.SignedByteChangesSides | include/CommonAPI/DBus/DBusFreedesktopVariant.hpp:32-61 | A signed byte in a D-Bus variant that may hold an unsigned one comes back as the unsigned alternative with the same bits |
| WireRoundTrip.UncleanVariant | include/CommonAPI/DBus/DBusFreedesktopVariant.hpp:32-61 | So -1 comes back as 255 in the other alternative |
| WireRoundTrip.RangeIsNotRead | include/CommonAPI/DBus/DBusInputStream.hpp:110-121 | The reader of a ranged integer fails on the value the variable had before, and otherwise takes whatever integer is on the wire |
| WireRoundTrip.OutOfRangeIsRead | include/CommonAPI/DBus/DBusInputStream.hpp:110-121 | So 100 is read into a range that ends at 9 |
| WireRoundTrip.Relocate | src/CommonAPI/DBus/DBusOutputStream.cpp:105-114 | The bytes of a value depend on its offset modulo 8 only |
| WireRoundTrip.FindsWriter | include/CommonAPI/DBus/DBusFreedesktopVariant.hpp:32-61 | Comparing signatures as bytes from the wire finds the alternative of the writer when no earlier alternative has its signature |
| WireFormat.AlignmentsAgree | src/CommonAPI/DBus/DBusInputStream.cpp:35-38 | The reader's 32-bit mask formula and the writer's padding formula lead to the same offset exactly as long as that offset fits in 32 bits |
| WireFormat.UpWithin | src/CommonAPI/DBus/DBusInputStream.cpp:35-38 | Skipping padding never leaves a region that ends on a boundary of 8, which bounds the reader's position on every body |
| WireFormat.LittleRoundTrip | src/CommonAPI/DBus/DBusOutputStream.cpp:116-122 | Fixed-size words come back from their little-endian bytes |
| WireFormat.SignedRoundTrip | src/CommonAPI/DBus/DBusInputStream.cpp:84-122 | A signed or unsigned integer comes back from its two's complement of the same size |
| WireFormat.Dec | include/CommonAPI/DBus/DBusInputStream.hpp:136-387 | On every body, position and type the decoder terminates; without an error it has consumed at least one byte and stays within the body length rounded up to 8 |
| WireConformance.Conforms | include/CommonAPI/DBus/DBusOutputStream.hpp:95-330 | Every value whose lengths fit, of every type without an array of D-Bus variants or of ranged integers, is encoded at every offset byte for byte as the marshalling rules of the D-Bus Specification say, which are written down from type codes alone (sizes, alignments, little-endian two's complement, lengths, nested containers and variants) |
| WireConformance.DatumFits | include/CommonAPI/DBus/DBusTypeOutputStream.hpp:18-197 | Whatever is written under a signature is a value of that signature: every number is within the range that its code has |
| WireConformance.StartConforms | include/CommonAPI/DBus/DBusOutputStream.hpp:359-415 | The first element of an array begins where the Specification has it, exactly unless the elements are D-Bus variants or ranged integers and the place is no multiple of 8 |
| WireConformance.StructVector | include/CommonAPI/DBus/DBusOutputStream.hpp:254-276 | The twelve bytes of a vector with one structure: the padding before the structure is not part of the length |
| WireConformance.VariantVector | include/CommonAPI/DBus/DBusOutputStream.hpp:388-393 | An empty vector of D-Bus variants is written with four bytes of padding that the Specification does not have |
| WireConformance.IntegerCodes | include/CommonAPI/DBus/DBusTypeOutputStream.hpp:23-75 | The signature of an integer is one character, whose size and alignment in the Specification are those of the integer, and whose sign is, except for bytes |
| WireConformance.Signatures | include/CommonAPI/DBus/DBusTypeOutputStream.hpp:18-197 | The text that is emitted for each basic type and for some nested ones |
| WireRoundTrip.WordIsComplete | src/CommonAPI/DBus/DBusInputStream.cpp:40-49 | A word is read exactly if it is there as a whole |
| WireRoundTrip.BooleanIsChecked | src/CommonAPI/DBus/DBusInputStream.cpp:75-82 | A boolean is read exactly if its word is 0 or 1 |
| WireRoundTrip.SignatureIsKnown | include/CommonAPI/DBus/DBusInputStream.hpp:198-215 | A D-Bus variant is read only if some alternative has the signature on the wire |
| WireRoundTrip.FirstEntryCounts | include/CommonAPI/DBus/DBusInputStream.hpp:354-387 | Of two entries with equal keys the first one counts |
| WireOutput.DBusOutputStream.WriteValue | include/CommonAPI/DBus/DBusOutputStream.hpp:155-330 | Without an error the new payload is the old one followed by the encoding at that offset; an error is set exactly when there was one or a ranged integer is out of its range; in every case the stack of positions has grown by exactly `LeftBehind`, and its old part is unchanged |
| WireOutput.DBusOutputStream.WriteStruct | include/CommonAPI/DBus/DBusOutputStream.hpp:155-163 | Padding to 8 and the fields in declared order, all of them even after an error |
| WireOutput.DBusOutputStream.WriteVector | include/CommonAPI/DBus/DBusOutputStream.hpp:254-276 | Placeholder, padding, elements and the patched length together are the encoded array (which `WireConformance.Conforms` compares with the Specification); an error breaks the loop off, and what the elements leave on the stack stays there |
| WireOutput.DBusOutputStream.WriteMap | include/CommonAPI/DBus/DBusOutputStream.hpp:306-330 | The same for a map: every entry is padded to 8; an error returns early, and the two positions of the map stay on the stack together with what its entries left |
| WireOutput.DBusOutputStream.WriteRanged | include/CommonAPI/DBus/DBusOutputStream.hpp:141-148 | A ranged integer within its range is written as a word of 4 bytes; any other sets the error and writes nothing |
| WireOutput.DBusOutputStream.SetError | src/CommonAPI/DBus/DBusOutputStream.cpp:55-57 | The stream has an error |
| WireErrors.StackRestored | include/CommonAPI/DBus/DBusOutputStream.hpp:254-330 | When a write leaves the stack of positions as it was: on a stream with an error exactly when no map with entries is reached; otherwise exactly when every ranged integer is within its range, or no map is being written when the error is met and none with entries is begun after it |
| WireErrors.MapsLoseTwo | include/CommonAPI/DBus/DBusOutputStream.hpp:306-330 | A non-empty map that meets an error leaves two positions at least |
| WireErrors.LostPositions | include/CommonAPI/DBus/DBusOutputStream.hpp:254-330 | A concrete map and a vector of it leave two positions, on a stream with an error and with a value out of its range; a vector of values out of their range leaves none |
| WireOutput.DBusOutputStream.WriteVariant | include/CommonAPI/DBus/DBusOutputStream.hpp:200-220 | A plain variant is padded to 8 and carries index and signature, a D-Bus variant the signature only |
| WireOutput.DBusOutputStream.WriteByteBuffer | include/CommonAPI/DBus/DBusOutputStream.hpp:246-252 | The special case for bytes writes the encoded array of bytes without a placeholder |
| WireOutput.DBusOutputStream.WriteVersion | include/CommonAPI/DBus/DBusOutputStream.hpp:134-139 | Padding to 8, major and minor number |
| WireOutput.DBusOutputStream.WriteString | src/CommonAPI/DBus/DBusOutputStream.cpp:74-84 | Length without the NUL, characters, NUL |
| WireOutput.DBusOutputStream.WriteSignature | src/CommonAPI/DBus/DBusOutputStream.cpp:124-133 | Length byte, characters, NUL; a length above 255 wraps in its byte |
| WireOutput.DBusOutputStream.Align | src/CommonAPI/DBus/DBusOutputStream.cpp:105-114 | Appends exactly the padding to the boundary |
| WireOutput.DBusOutputStream.PushPosition | src/CommonAPI/DBus/DBusOutputStream.cpp:28-30 | The payload length goes on the stack |
| WireOutput.DBusOutputStream.PopPosition | src/CommonAPI/DBus/DBusOutputStream.cpp:32-36 | The last pushed position comes off, and lies inside the payload |
| WireOutput.DBusOutputStream.RawAt | src/CommonAPI/DBus/DBusOutputStream.cpp:120-122 | Replaces bytes in place and nothing else, when they lie inside the payload |
| WireOutput.DBusOutputStream.BeginArray | include/CommonAPI/DBus/DBusOutputStream.hpp:257-262 | Where the placeholder and the first element lie, and both positions on the stack |
| WireOutput.DBusOutputStream.EndArray | include/CommonAPI/DBus/DBusOutputStream.hpp:271-273 | Pops both positions and stores the byte count from the first element on, not counting the padding before it |
| WireOutput.PatchedArray | include/CommonAPI/DBus/DBusOutputStream.hpp:271-273 | Patching that count into the placeholder yields the encoded array |
| WireInput.DBusInputStream.ReadValue | include/CommonAPI/DBus/DBusInputStream.hpp:136-387 | On any body: position bound, both stacks restored, errors stay; without an earlier error value, position and error are those of the decoder |
| WireInput.DBusInputStream.ReadVector | include/CommonAPI/DBus/DBusInputStream.hpp:291-317 | The element loop against the two stacks reads what the decoder reads, also when an error cuts it short |
| WireInput.DBusInputStream.ReadMap | include/CommonAPI/DBus/DBusInputStream.hpp:354-387 | The same for maps; an entry whose key is already there is dropped |
| WireInput.DBusInputStream.ReadVariant | include/CommonAPI/DBus/DBusInputStream.hpp:185-241 | Index from the wire or from the signature; an unknown signature is an error |
| WireInput.DBusInputStream.ReadRanged | include/CommonAPI/DBus/DBusInputStream.hpp:110-121 | The range of the value before is checked, then the integer from the wire is taken |
| WireInput.DBusInputStream.ReadFields | include/CommonAPI/DBus/DBusInputStream.hpp:135-142 | All fields are read in order even after an error |
| WireInput.DBusInputStream.ReadString | src/CommonAPI/DBus/DBusInputStream.cpp:134-147 | Length, characters and NUL; the value ends at the first NUL |
| WireInput.DBusInputStream.ReadSignature | include/CommonAPI/DBus/DBusInputStream.hpp:198-206 | Length byte, characters and one more byte |
| WireInput.DBusInputStream.ReadVersion | src/CommonAPI/DBus/DBusInputStream.cpp:149-155 | Padding to 8 and two words |
| WireInput.DBusInputStream.ReadByteBuffer | include/CommonAPI/DBus/DBusInputStream.hpp:273-288 | Length and that many bytes in one piece |
| WireInput.DBusInputStream.Align | src/CommonAPI/DBus/DBusInputStream.cpp:35-38 | Moves to the next boundary |
| WireInput.DBusInputStream.Raw | src/CommonAPI/DBus/DBusInputStream.cpp:40-49 | Takes bytes or sets the error when they are not all there |
| Signature.DBusTypeOutputStream.WriteType | include/CommonAPI/DBus/DBusTypeOutputStream.hpp:18-197 | Appends exactly the signature of the type to what is there; `WireConformance.IntegerCodes` and `Signatures` say which characters those are |
| Signature.DBusTypeOutputStream.WriteStruct | include/CommonAPI/DBus/DBusTypeOutputStream.hpp:116-126 | Parentheses around the fields' signatures |
| Signature.DBusTypeOutputStream.WriteMap | include/CommonAPI/DBus/DBusTypeOutputStream.hpp:187-197 | `a{`, key, value, `}` |
| Signature.ParsePrint | include/CommonAPI/DBus/DBusTypeOutputStream.hpp:18-197 | Every legal complete type is found again by a predictive parser, whatever follows it |
| Signature.SigIsPrint | include/CommonAPI/DBus/DBusTypeOutputStream.hpp:18-197 | An emitted signature is the printed form of the erased type |
| Signature.SigIsComplete | include/CommonAPI/DBus/DBusTypeOutputStream.hpp:18-197 | Every emitted signature parses as one single complete type with nothing left over |
| Signature.SigPrefixFree | include/CommonAPI/DBus/DBusTypeOutputStream.hpp:18-197 | No emitted signature is a proper prefix of another |
| Signature.SigDecidesErasure | include/CommonAPI/DBus/DBusTypeOutputStream.hpp:18-197 | Two types have equal signatures if and only if they agree after erasing signedness of bytes and file descriptors, float and double, `Version` and plain variants |
| Signature.SelectAlternative | include/CommonAPI/DBus/DBusFreedesktopVariant.hpp:32-61 | Finds the first alternative with the signature, with the index counted from the back, or reports index 0 |
| Signature.SelectionFindsWriter | include/CommonAPI/DBus/DBusFreedesktopVariant.hpp:32-61 | The writer's alternative is the one found if and only if no earlier alternative has the same erasure |
| Signature.SignedByteIsMisread | include/CommonAPI/DBus/DBusFreedesktopVariant.hpp:32-61 | After an unsigned byte a signed byte is never found |
| Murmur.MurmurHash3 | src/murmurhash/MurmurHash3.cpp:94-148 | Block loop, tail and finalization compute the hash function of the lemmas below, which `MurmurBits.HashIsBits` identifies |
| Murmur.TailStatements | src/murmurhash/MurmurHash3.cpp:124-139 | The falling-through cases combine the one to three tail bytes into their little-endian word |
| Murmur.FmixStatements | src/murmurhash/MurmurHash3.cpp:68-77 | The finalization statements compute the function that `FmixUndone` inverts |
| Murmur.FmixUndone | src/murmurhash/MurmurHash3.cpp:68-77 | Finalization is a permutation of the 32-bit words |
| Murmur.MixKeyUndone | src/murmurhash/MurmurHash3.cpp:112-116 | Mixing a key word is a permutation |
| Murmur.StepUndone | src/murmurhash/MurmurHash3.cpp:110-121 | A round of the block loop can be undone in the hash for a fixed key word, and conversely |
| Murmur.SeedPermutation | src/murmurhash/MurmurHash3.cpp:94-148 | For a fixed key of any length the hash is a permutation of the 32-bit seeds, with its two-sided inverse |
| Murmur.OneBlockNeverCollides | src/murmurhash/MurmurHash3.cpp:94-148 | For a fixed seed, equally long keys that differ inside one 4-byte block or inside the tail only have equal hashes if and only if they are equal |
| Murmur.HashTuple | src/CommonAPI/DBus/DBusFunctionalHash.cpp:60-71 | Overwriting one seed by successive calls computes the chained hash; the empty tuple has the hash 0xc70f6907 |
| Murmur.ChainInjective | src/CommonAPI/DBus/DBusFunctionalHash.cpp:49-58 | Chaining over fixed parts is injective in the seed |
| Murmur.EqualSuffixCollides | src/CommonAPI/DBus/DBusFunctionalHash.cpp:49-71 | Tuples with equal last parts collide if and only if their first parts do |
| Murmur.OneBlockOfTuple | src/CommonAPI/DBus/DBusFunctionalHash.cpp:60-71 | Changing one block of one component always changes the hash of the tuple |
| MurmurBits.HashIsBits | src/murmurhash/MurmurHash3.cpp:94-148 | For every key and seed the hash of numbers is the one that the algorithm computes on 32-bit machine words, with exclusive or, shifts, rotations and wrapping products of the verifier, on the little-endian words of the key |
| MurmurBits.PublishedValues | src/murmurhash/MurmurHash3.cpp:94-148 | Four published values of the function, for keys of four, three and no bytes |
| MurmurBits.BitsTimes | src/murmurhash/MurmurHash3.cpp:114-116 | A wrapping product of words is the product of the numbers |
| MurmurBits.BitsXor | src/murmurhash/MurmurHash3.cpp:118-118 | Exclusive or of numbers, defined digit by digit, is the one of machine words |
| MurmurBits.BitsInjective | src/murmurhash/MurmurHash3.cpp:146-148 | Words with the same bits are the same number |
| Words.TimesUndone | src/murmurhash/MurmurHash3.cpp:108-121 | Multiplication by a constant modulo 2 to the 32 is undone by its inverse |
| Words.Fold16Undone | src/murmurhash/MurmurHash3.cpp:70-74 | `h ^= h >> 16` is its own inverse |
| Words.Fold13Undone | src/murmurhash/MurmurHash3.cpp:72-72 | `h ^= h >> 13` is undone by three folds |
| Words.RotationsUndone | src/murmurhash/MurmurHash3.cpp:34-37 | The rotations by 15 and 13 are undone by those by 17 and 19 |
| TextConversion.Gap.Push | src/pugixml/pugixml.cpp:1574-1601 | Extends the gap without changing the text converted so far, whether or not there was a gap |
| TextConversion.Gap.Flush | src/pugixml/pugixml.cpp:1603-1613 | Closes the last gap: the text stands at the start without holes, everything ahead is untouched |
| TextConversion.Gap.StrconvEscape | src/pugixml/pugixml.cpp:1616-1755 | Replaces an entity or character reference by its bytes, or leaves a broken one alone, as a pure function of the source says, whose meaning is in `References` |
| TextConversion.EscapeShortens | src/pugixml/pugixml.cpp:1616-1755 | What replaces a reference is always shorter than the reference, so in-place writing never overtakes reading |
| References.NumericReference | src/pugixml/pugixml.cpp:1616-1680 | For every number below 2 to the 32 and whatever follows: its decimal numeral and its hexadecimal numeral in either case, written as a reference, are read as the UTF-8 of the number, up to just behind the semicolon |
| References.NamedReference | src/pugixml/pugixml.cpp:1681-1755 | The five names stand for `<`, `>`, `&`, `'` and `"` |
| References.OnlyReferences | src/pugixml/pugixml.cpp:1616-1755 | Nothing else is a reference, and what is none stays as it is |
| References.PlainTextConverts | src/pugixml/pugixml.cpp:1817-2100 | In every mode a text without references is converted to what XML 1.0 makes of it: line ends normalized (section 2.11), blanks in attribute values turned into spaces (section 3.3.3) |
| TextConversion.StrconvPcdata | src/pugixml/pugixml.cpp:1817-1850 | The converted text, and nothing else, stands NUL-terminated at the start; the result is just past the terminator; nothing beyond is written |
| TextConversion.StrconvCdata | src/pugixml/pugixml.cpp:1787-1815 | The same for CDATA; fails exactly when there is no terminator |
| TextConversion.StrconvAttributeWconv | src/pugixml/pugixml.cpp:1922-1956 | The same for attribute values, with blanks turned into spaces; fails exactly when the quote is missing |
| TextConversion.StrconvAttributeEol | src/pugixml/pugixml.cpp:1958-1988 | The same with line ends normalized |
| TextConversion.StrconvAttributeSimple | src/pugixml/pugixml.cpp:1990-2014 | The same with escapes only |
| XmlPrinter.TextOutputEscaped | src/pugixml/pugixml.cpp:2994-3033 | What reaches the writer is the escaped text, in runs and single characters |
| References.PrintedCharacter | src/pugixml/pugixml.cpp:3005-3031 | What each of the 256 bytes is printed as, in text and in attribute values |
| References.PrintedText | src/pugixml/pugixml.cpp:2994-3033 | Printed text has no angle bracket, printed attribute values have no double quote, every ampersand begins a reference, and control characters are left only where they may stand |
| CharacterTables.PrinterTable | src/pugixml/pugixml.cpp:1062-1082 | The characters that are escaped are those with the bit in the printer's table of 256 entries |
| XmlPrinter.TextOutputCdata | src/pugixml/pugixml.cpp:3043-3063 | A `]]>` in the text is split between two sections |
| XmlPrinter.NodeOutputAttributes | src/pugixml/pugixml.cpp:3065-3079 | All attributes in order, escaped, in double quotes |
| XmlPrinter.NodeOutput | src/pugixml/pugixml.cpp:3081-3206 | A tree of elements, PCDATA and CDATA in raw mode, to any depth |
| References.PrintedDocument | src/pugixml/pugixml.cpp:3081-3206 | The exact text of an element with an attribute, an empty element and text |
| References.SplitSection | src/pugixml/pugixml.cpp:3043-3063 | The exact text of a CDATA section whose content is its own terminator |
| XmlPrinter.NodesOutput | src/pugixml/pugixml.cpp:3090-3095 | All nodes of a document or all children, in order |
| XmlPrinter.PrintTextConcat | src/pugixml/pugixml.cpp:2994-3033 | Escaping in parts is escaping the whole |
| XmlParser.ParseBuffer | src/pugixml/pugixml.cpp:2616-2650 | The in-place parser returns what the parser on an unchanging source returns, and in the end every name and value of the tree stands NUL-terminated in the buffer |
| XmlParser.ParseLoop | src/pugixml/pugixml.cpp:2385-2614 | The same for the main loop with the cut-off character; unclosed elements are an error |
| XmlParser.ReadTag | src/pugixml/pugixml.cpp:2400-2562 | One tag of any modelled kind |
| XmlParser.ReadStartTag | src/pugixml/pugixml.cpp:2401-2514 | A start or empty tag; its end may be the cut-off character |
| XmlParser.ReadAttributes | src/pugixml/pugixml.cpp:2416-2495 | All attributes up to the end of the tag, with the errors where the code reports them |
| XmlParser.ReadOneAttr | src/pugixml/pugixml.cpp:2421-2465 | Name, equals sign, quoted value converted in place |
| XmlParser.ReadEndTag | src/pugixml/pugixml.cpp:2515-2546 | The name is compared with the open element's |
| XmlParser.ReadSection | src/pugixml/pugixml.cpp:2220-2259 | A CDATA section, also when `>` is the cut-off character |
| XmlParser.ReadText | src/pugixml/pugixml.cpp:2586-2606 | PCDATA inside an element, with the tag behind it parsed at once |
| XmlParser.SkipText | src/pugixml/pugixml.cpp:2597-2603 | Text outside all elements is dropped |
| XmlParser.ReadRound | src/pugixml/pugixml.cpp:2394-2608 | One round of the main loop |
| XmlParser.ConvertSuffix | src/pugixml/pugixml.cpp:1817-1850 | A conversion depends only on what lies at and behind its start, so earlier in-place writes do not matter |
| CharacterTables.ParserTable | src/pugixml/pugixml.cpp:1020-1051 | Names, blanks and the characters at which the converters stop are those with the bits in the parser's table of 256 entries |
| MalformedDocuments.NoName | src/pugixml/pugixml.cpp:2547-2561 | `<1>`: the error and its offset |
| MalformedDocuments.NoEndOfTag | src/pugixml/pugixml.cpp:2501-2514 | `<a/b>`: the error and its offset |
| MalformedDocuments.NoValue | src/pugixml/pugixml.cpp:2421-2465 | `<a b>`: the error and its offset |
| MalformedDocuments.NoElement | src/pugixml/pugixml.cpp:2515-2521 | `</a>`: the error and its offset |
| MalformedDocuments.NoEnd | src/pugixml/pugixml.cpp:2609-2612 | `<a>`: the error and its offset |
| MalformedDocuments.OtherEnd | src/pugixml/pugixml.cpp:2522-2532 | `<a></b>`: the error and its offset |
| MalformedDocuments.SingleQuotes | src/pugixml/pugixml.cpp:2421-2465 | Blanks around the equals sign and single quotes are read: the tree of such a document |
| XmlRoundTrip.PrintThenParse | src/pugixml/pugixml.cpp:2994-3208 | For every document of legal names and NUL-free text, parsing the raw-mode output succeeds with the normal form of the document |
| XmlRoundTrip.RoundTrip | src/pugixml/pugixml.cpp:2385-2650 | The same tree comes back if and only if it is in normal form: no TAB in attribute values, PCDATA without CR, not blank and not next to PCDATA, CDATA without CR and `]]>`, no empty names |
| XmlRoundTrip.ChangedDocuments | src/pugixml/pugixml.cpp:2385-2650 | Four concrete documents that come back changed: a TAB in an attribute value, an empty name, a carriage return and a blank text |
| XmlRoundTrip.DocumentNormal | src/pugixml/pugixml.cpp:2385-2650 | Every normal form is normal, and a normal document is its own normal form |
| XmlRoundTrip.PrintAndParse | src/pugixml/pugixml.cpp:4657-4665 | Printing with the methods through the buffered writer of any capacity and parsing all that it passed on: both statements above for the running code |
| XmlRoundTrip.NodeRead | src/pugixml/pugixml.cpp:2385-2614 | A printed element or section, anywhere in a document, is parsed to its normal form |
| XmlRoundTrip.NodesRead | src/pugixml/pugixml.cpp:2385-2614 | The same for printed children with the text between them |
| XmlRoundTrip.TextConverts | src/pugixml/pugixml.cpp:1817-1850 | Escaped PCDATA is unescaped to itself with line ends normalized |
| XmlRoundTrip.ValueConverts | src/pugixml/pugixml.cpp:1922-1956 | An escaped attribute value is unescaped to itself with tabs turned into spaces |
| XmlRoundTrip.SectionConverts | src/pugixml/pugixml.cpp:1787-1815 | A section comes back with line ends normalized |
| XmlRoundTrip.OpenTag | src/pugixml/pugixml.cpp:2401-2495 | A printed start tag pushes its element with all its attributes |
| XmlRoundTrip.EmptyTag | src/pugixml/pugixml.cpp:2466-2480 | A printed empty tag adds its element, also at the very end of the text |
| XmlRoundTrip.CloseTag | src/pugixml/pugixml.cpp:2515-2546 | A printed end tag closes its element, also at the very end of the text |
| Transcoding.Traits.Put | src/pugixml/pugixml.cpp:657-800 | A counter advances by exactly the number of units that the writer of the same encoding stores, and the writer stores nothing else |
| Transcoding.CountIsLength | src/pugixml/pugixml.cpp:657-800 | The counted size of every code is the size written, for all four encodings |
| Transcoding.DecodeUtf8Block | src/pugixml/pugixml.cpp:849-909 | On every input, valid or not, and at every address: the block path for aligned ASCII gives the same result as decoding byte by byte |
| Transcoding.DecodeUtf16Block | src/pugixml/pugixml.cpp:911-953 | On every input, with either byte order; lone surrogates are dropped |
| Transcoding.DecodeUtf32Block | src/pugixml/pugixml.cpp:955-975 | On every input, with either byte order |
| Transcoding.ConvertBufferUtf16 | src/pugixml/pugixml.cpp:1335-1355 | Both passes agree on every input; the buffer is exactly filled with the UTF-8 of the decoded units |
| Transcoding.ConvertBufferUtf32 | src/pugixml/pugixml.cpp:1357-1377 | The same for UTF-32 |
| Transcoding.Utf8Back | src/pugixml/pugixml.cpp:849-909 | Decoding written UTF-8 gives back every code sequence up to 21 bits |
| Transcoding.Utf16Back | src/pugixml/pugixml.cpp:911-953 | Decoding written UTF-16 gives back every sequence of scalar values |
| Transcoding.Utf32Back | src/pugixml/pugixml.cpp:781-805 | Decoding written UTF-32 gives back every sequence of scalar values |
| Transcoding.OneUnitEach | src/pugixml/pugixml.cpp:781-824 | Latin-1 has one unit for each code: the code itself below 256, otherwise a question mark; UTF-32 has the code itself |
| Transcoding.Characters | src/pugixml/pugixml.cpp:678-780 | The published encodings of characters of one, two, three and four bytes in UTF-8 and of a surrogate pair |
| Transcoding.Reencode16 | src/pugixml/pugixml.cpp:911-953 | Decoding and writing UTF-16 gives well-formed input back and makes any other input shorter |
| Transcoding.RoundTrip16 | src/pugixml/pugixml.cpp:1335-1355 | UTF-16 to UTF-8 to UTF-16 is the identity if and only if the input is well-formed |
| Transcoding.RoundTrip8 | src/pugixml/pugixml.cpp:2770-2811 | UTF-8 to UTF-16 to UTF-8 is the identity if and only if the input is well-formed |
| Transcoding.FromUtf16IsWellFormed | src/pugixml/pugixml.cpp:1335-1355 | Converted UTF-16 is well-formed UTF-8, whatever the input |
| Transcoding.SwappedInput | src/pugixml/pugixml.cpp:647-655 | Swapped units decoded with swapping give the same codes |
| Chunking.CutsCleanly | src/pugixml/pugixml.cpp:2754-2768 | Bytes may be cut without changing what they decode to if and only if no multi-byte sequence lies across the cut |
| Chunking.GetValidLength | src/pugixml/pugixml.cpp:2754-2768 | On every data longer than four bytes the cut is non-empty, at most four bytes from the end and clean, and splits well-formed data into well-formed parts |
| Chunking.WellFormedNeverStraddles | src/pugixml/pugixml.cpp:2754-2768 | Well-formed data never continues a sequence begun before it |
| Chunking.WellFormedParts | src/pugixml/pugixml.cpp:2754-2768 | Cutting well-formed data before a lead byte leaves two well-formed parts |
| BufferedWriter.ConversionConcat | src/pugixml/pugixml.cpp:2770-2811 | Converting in parts is converting the whole, for every target encoding, where the cut is clean |
| BufferedWriter.ConversionFits | src/pugixml/pugixml.cpp:2770-2811 | The conversion has no more units than bytes, and every unit fits its width |
| BufferedWriter.Latin1Back | src/pugixml/pugixml.cpp:2799-2811 | Text of characters below 256 goes out in Latin-1 byte for byte |
| BufferedWriter.AppendKeeps | src/pugixml/pugixml.cpp:2855-2894 | A write keeps the record: chunks non-empty, chunks and pending bytes make up the history, converted chunks are the conversion of what they contain |
| BufferedWriter.PassKeeps | src/pugixml/pugixml.cpp:2837-2853 | Passing a chunk on keeps the record |
| BufferedWriter.XmlBufferedWriter.constructor | src/pugixml/pugixml.cpp:2815-2824 | An empty buffer of at least eight bytes satisfies the invariant |
| BufferedWriter.XmlBufferedWriter.ConvertBuffer | src/pugixml/pugixml.cpp:2770-2811 | The conversion of a chunk fits the scratch buffer |
| BufferedWriter.XmlBufferedWriter.FlushData | src/pugixml/pugixml.cpp:2837-2853 | One call with the conversion, or none for empty data |
| BufferedWriter.XmlBufferedWriter.Flush | src/pugixml/pugixml.cpp:2831-2835 | All calls together are the conversion of everything written, if no write split a sequence; without a conversion always |
| BufferedWriter.XmlBufferedWriter.Write | src/pugixml/pugixml.cpp:2855-2894 | Keeps the invariant (buffer within capacity, chunks cut on sequence boundaries) and extends the history by exactly the data |
| BufferedWriter.XmlBufferedWriter.WriteChunks | src/pugixml/pugixml.cpp:2863-2888 | The chunk loop passes on clean cuts and leaves at most a buffer's worth |
| BufferedWriter.XmlBufferedWriter.WriteCharacters | src/pugixml/pugixml.cpp:2901-2963 | The same for one to six characters |
| BufferedWriter.SwapUnits | src/pugixml/pugixml.cpp:1006-1009 | Byte order is swapped in place, for either width |
| NodeSetSort.Partition | src/pugixml/pugixml.cpp:5542-5593 | Less, equal and greater around the pivot, a permutation of the range, nothing outside touched; the comparator must order distinct elements of the range only |
| NodeSetSort.MiddleIsMedian | src/pugixml/pugixml.cpp:5595-5600 | The value chosen from three has at least two of them on either side |
| NodeSetSort.Median3 | src/pugixml/pugixml.cpp:5595-5600 | Sorts three positions and nothing else |
| NodeSetSort.Median | src/pugixml/pugixml.cpp:5602-5619 | Brings the median of three, or of the medians of nine, to the middle |
| NodeSetSort.InsertionSort | src/pugixml/pugixml.cpp:5510-5540 | Sorted permutation |
| NodeSetSort.Insert | src/pugixml/pugixml.cpp:5516-5538 | The unguarded search stops at or behind the begin of the range, where the element belongs |
| NodeSetSort.Sort | src/pugixml/pugixml.cpp:5621-5649 | Sorted permutation of the range, with nested calls at most log2 of its length deep, for every comparator that orders the distinct elements of the range, whatever it says about an element and itself |
| NodeSetSort.SplitOff | src/pugixml/pugixml.cpp:5624-5645 | One round sorts the smaller side and goes on with the rest, which is ordered against everything else |
| NodeSetSort.Unique | src/pugixml/pugixml.cpp:5482-5503 | Keeps exactly the elements that differ from their predecessor, in order |
| NodeSetSort.DedupOfSorted | src/pugixml/pugixml.cpp:5482-5503 | On a sorted range that leaves every element once, in ascending order |
| NodeSets.ComparatorOrders | src/pugixml/pugixml.cpp:6164-6205 | The document order comparator orders the distinct items of a document in either direction, although an attribute is before itself, so the sort may be called with it |
| NodeSets.AddressesOrder | src/pugixml/pugixml.cpp:6208-6215 | The comparator of addresses orders the distinct items as well |
| NodeSets.Reverse | src/pugixml/pugixml.cpp:5477-5480 | Reverses the range in place and nothing else |
| NodeSets.XpathNodeSet.constructor | src/pugixml/pugixml.cpp:9755-9758 | A copy of the items, in no order |
| NodeSets.XpathNodeSet.Sort | src/pugixml/pugixml.cpp:6765-6779 | The same items with the same counts in the wanted direction, whichever order the set had |
| NodeSets.XpathNodeSet.RemoveDuplicates | src/pugixml/pugixml.cpp:6896-6902 | Every item once, none lost, and a sorted set stays sorted |
| NodeSets.DocumentOrdered | src/pugixml/pugixml.cpp:6884-6902 | A node set of one document, with any duplicates, comes out in document order without duplicates |
| NodeSets.OnlyOneOrder | src/pugixml/pugixml.cpp:6884-6902 | That result is determined by the items alone |
| Documents.PreorderIsDocumentOrder | src/pugixml/pugixml.cpp:6096-6121 | Preorder lists exactly the nodes of a tree, in the order of their paths |
| Axes.AxesPartition | src/pugixml/pugixml.cpp:7708-7841 | Every node is exactly one of ancestor, descendant, following, preceding and self |
| Axes.DescendantAxis | src/pugixml/pugixml.cpp:7708-7734 | Visits exactly the descendants, in document order |
| Axes.FollowingAxis | src/pugixml/pugixml.cpp:7752-7778 | Visits exactly the following nodes, in document order |
| Axes.PrecedingAxis | src/pugixml/pugixml.cpp:7780-7817 | Visits exactly the preceding nodes, in reverse document order, never an ancestor |
| Axes.AncestorAxis | src/pugixml/pugixml.cpp:7819-7835 | Visits exactly the ancestors, in reverse document order |
| Axes.OrderedIsDistinct | src/pugixml/pugixml.cpp:7708-7835 | No walk visits a node twice |
| Axes.AscendingIsUnique | src/pugixml/pugixml.cpp:7708-7778 | A forward axis is determined by its set of nodes, hence a part of preorder |
| Axes.NodeIsAncestor | src/pugixml/pugixml.cpp:6123-6128 | True exactly for a node and everything below it |
| DocumentOrder.NodeHeight | src/pugixml/pugixml.cpp:6083-6094 | The number of nodes up to the root |
| DocumentOrder.NodeIsBefore | src/pugixml/pugixml.cpp:6096-6121 | True exactly when the left node comes first in preorder, for nodes of any two heights |
| DocumentOrder.Compare | src/pugixml/pugixml.cpp:6164-6205 | For distinct nodes and attributes the slow path decides document order; compared with itself a node gives false and an attribute true |
| DocumentOrder.ItemOrderIsTotal | src/pugixml/pugixml.cpp:6164-6205 | That order is total, irreflexive and transitive |
| DocumentOrder.AttributesFollowElement | src/pugixml/pugixml.cpp:6164-6205 | An element, then its attributes in order, then everything below it |
| SiblingLists.LinkLast | src/pugixml/pugixml.cpp:581-605 | Linking at the end through the half-cyclic pointer appends to the child sequence and keeps the list invariant |
| SiblingLists.LinkFirst | src/pugixml/pugixml.cpp:4319-4332 | The same at the front |
| SiblingLists.LinkBefore | src/pugixml/pugixml.cpp:4347-4356 | The same before a child at any place |
| SiblingLists.LinkAfter | src/pugixml/pugixml.cpp:4371-4380 | The same behind a child at any place |
| SiblingLists.Unlink | src/pugixml/pugixml.cpp:4493-4497 | Bypassing a child removes exactly it from the sequence |
| SiblingLists.InsertedAt | src/pugixml/pugixml.cpp:581-605 | Which links make up a sequence with one more child, at any place |
| SiblingLists.DeletedAt | src/pugixml/pugixml.cpp:4493-4497 | Which links make up a sequence with one child less |
| SiblingLists.XmlDocument.AppendChild | src/pugixml/pugixml.cpp:4299-4308 | On any tree: succeeds exactly when allowed, appends to the one list, leaves all others alone and the tree well linked |
| SiblingLists.AllowedChildren | src/pugixml/pugixml.cpp:3223-3230 | Which kinds of nodes are allowed below which |
| SiblingLists.XmlDocument.PrependChild | src/pugixml/pugixml.cpp:4310-4335 | The same at the front |
| SiblingLists.XmlDocument.InsertChildBefore | src/pugixml/pugixml.cpp:4337-4359 | The same before a child; refused for a node that is no child |
| SiblingLists.XmlDocument.InsertChildAfter | src/pugixml/pugixml.cpp:4361-4383 | The same behind a child |
| SiblingLists.XmlDocument.RemoveChild | src/pugixml/pugixml.cpp:4489-4502 | Removes the child and its whole subtree, every node freed once, or refuses and changes nothing |
| SiblingLists.XmlDocument.LastChild | src/pugixml/pugixml.cpp:4133-4136 | The cyclic pointer of the first child is the last child |
| SiblingLists.XmlDocument.PreviousSibling | src/pugixml/pugixml.cpp:4075-4081 | The previous child, or none for the first |
| SiblingLists.DestroyNode | src/pugixml/pugixml.cpp:553-579 | Frees exactly the subtree, every node once, the node itself last |
| SiblingLists.SubtreeIsUnique | src/pugixml/pugixml.cpp:553-579 | What counts as the subtree of a node is determined |
| SiblingLists.SubtreesApart | src/pugixml/pugixml.cpp:569-576 | Subtrees of different children share no node |
| PageAllocator.BlocksApart | src/pugixml/pugixml.cpp:325-336 | Blocks of a page never overlap and lie inside its used bytes |
| PageAllocator.OffsetsDiffer | src/pugixml/pugixml.cpp:325-336 | No two blocks begin at the same place |
| PageAllocator.Balance | src/pugixml/pugixml.cpp:345-348 | Freed bytes never exceed used bytes, and equal them exactly when no block is live |
| PageAllocator.Deallocated | src/pugixml/pugixml.cpp:345-346 | Freeing a block moves exactly its bytes |
| PageAllocator.LinkLast | src/pugixml/pugixml.cpp:436-439 | The page list after a page at the end |
| PageAllocator.LinkBeforeLast | src/pugixml/pugixml.cpp:449-453 | The page list after a page before the newest |
| PageAllocator.Unlink | src/pugixml/pugixml.cpp:363-365 | The page list without a page |
| PageAllocator.SizeFromHeader | src/pugixml/pugixml.cpp:413-414 | The size found from the header or the page is the size allocated, also for strings that fill a page |
| PageAllocator.AllReleased | src/pugixml/pugixml.cpp:5149-5181 | After the last walk every page ever created has been handed back exactly once |
| PageAllocator.Allocator.constructor | src/pugixml/pugixml.cpp:5128-5147 | The sentinel page, full from the start |
| PageAllocator.Allocator.AllocateMemory | src/pugixml/pugixml.cpp:325-336 | A new live block, apart from all others, in the newest or in a new page; all other blocks and string headers stay |
| PageAllocator.Allocator.AllocateOob | src/pugixml/pugixml.cpp:423-460 | A new page at the end, or before the newest for a large block, so that every page in between holds a live block |
| PageAllocator.Allocator.AllocateString | src/pugixml/pugixml.cpp:373-399 | A block with a header that remembers its size, at an offset of less than 16 bits; all other headers stay |
| PageAllocator.Allocator.DeallocateMemory | src/pugixml/pugixml.cpp:338-371 | The page of a freed block is handed back exactly when no live block is left in it, the newest one is reset instead; everything else stays |
| PageAllocator.Allocator.DeallocateString | src/pugixml/pugixml.cpp:401-417 | The same for a string, whose size is found again; its header goes and no other |
| PageAllocator.Allocator.Destroy | src/pugixml/pugixml.cpp:5149-5181 | Hands back all pages but the sentinel; over the whole life every created page exactly once |
| ReplyTimeout.AtMostOnce | src/CommonAPI/DBus/DBusConnection.cpp:589-626 | In every interleaving from the start, every handler is replied to at most once and deleted at most once, and while the connection is open the handler of a call is deleted only after its reply |
| ReplyTimeout.RepliesToTheLiving | src/CommonAPI/DBus/DBusConnection.cpp:589-626 | In every interleaving, no reply runs on a handler that has been deleted |
| ReplyTimeout.NoneIsForgotten | src/CommonAPI/DBus/DBusConnection.cpp:653-851 | In every interleaving: a handler that was dropped, by an enforcer that timed it out and found no main loop or by a queue that no longer dispatches, is neither replied to nor deleted; and a handler that no list, map, queue or thread holds has been deleted exactly if it was not dropped |
| ReplyTimeout.LostIsDropped | src/CommonAPI/DBus/DBusConnection.cpp:701-739 | What the state records as dropped is what some step of the run dropped |
| ReplyTimeout.DroppedRun | src/CommonAPI/DBus/DBusConnection.cpp:688-739 | A concrete run of three steps that forgets a handler: a call, its timeout, and no main loop |
| ReplyTimeout.TouchesDeleted | src/CommonAPI/DBus/DBusConnection.cpp:602-626 | In every interleaving, a step touches a handler that has been deleted exactly when it is a lock section of a callback whose timeout came first, and nothing holds the handler any more, and it was not dropped |
| ReplyTimeout.DeletedIsTouched | src/CommonAPI/DBus/DBusConnection.cpp:602-626 | A concrete run of seven steps to such a state: the reply comes in, the timeout is judged before the callback begins, and the main loop reports it and deletes the handler |
| ReplyProgress.StepAdvances | src/CommonAPI/DBus/DBusConnection.cpp:589-1003 | In every state that keeps the invariant, every enabled step brings a measure of the work that is left down, unless it adds work or finds nothing to do |
| ReplyProgress.NothingToDo | src/CommonAPI/DBus/DBusConnection.cpp:653-851 | A step that finds nothing to do leaves every handler as it is |
| ReplyProgress.AddedWork | src/CommonAPI/DBus/DBusConnection.cpp:861-1003 | A call or a queued reply adds at most 14 to the work |
| ReplyProgress.RunsAreBounded | src/CommonAPI/DBus/DBusConnection.cpp:589-1003 | So in every run, the number of steps is bounded by what was added and by the looks that found nothing to do; no handler is handed on for ever |
| ReplyProgress.SomethingCanBeDone | src/CommonAPI/DBus/DBusConnection.cpp:653-1003 | While work is left, some enabled step brings it down without dropping a handler, and without an answer to a call that has a timeout: the threads do not get stuck |
| ReplyProgress.EveryRunCanEnd | src/CommonAPI/DBus/DBusConnection.cpp:589-1003 | From every state that any interleaving can reach, open or closed, some run of such steps ends all that was begun: every handler that was not dropped is deleted once (after a close, except callbacks that never begin), and nothing of any handler is left |
| ReplyProgress.InfiniteIsDeleted | src/CommonAPI/DBus/DBusConnection.cpp:792-798 | A finished handler without a timeout is deleted after three steps: collected, copied, deleted |
| ReplyProgress.MappedIsDeleted | src/CommonAPI/DBus/DBusConnection.cpp:740-779 | The same for a finished handler whose entry has not expired |
| ReplyProgress.ExpiredIsDeleted | src/CommonAPI/DBus/DBusConnection.cpp:688-739 | The same for one whose entry has, with or without a main loop |
| ReplyProgress.NothingAfterClose | src/CommonAPI/DBus/DBusConnection.cpp:435-459 | After a close no call is sent, none is answered, no callback begins and no queued reply is delivered, in any run |
| ReplyProgress.CancelledIsNotAnswered | src/CommonAPI/DBus/DBusConnection.cpp:692-697 | A call that the enforcer has cancelled is not answered in any run, until another call has its address |
| ReplyTimeout.DoKeeps | src/CommonAPI/DBus/DBusConnection.cpp:589-1003 | Every enabled step of any thread keeps the invariant that ties flags, lists and counters of every handler together |
| ReplyTimeout.AfterKeeps | src/CommonAPI/DBus/DBusConnection.cpp:589-1003 | Hence every run does |
| ReplyTimeout.NotifyKeeps | src/CommonAPI/DBus/DBusConnection.cpp:628-645 | libdbus completes an open call |
| ReplyTimeout.BeginKeeps | src/CommonAPI/DBus/DBusConnection.cpp:602-605 | Under the handler's lock the timeout is asked for and the execution marked as started |
| ReplyTimeout.ReplyKeeps | src/CommonAPI/DBus/DBusConnection.cpp:606-609 | The reply of a call |
| ReplyTimeout.EndRepliedKeeps | src/CommonAPI/DBus/DBusConnection.cpp:610-626 | The last section after a reply either deletes or marks as finished |
| ReplyTimeout.EndSkippedKeeps | src/CommonAPI/DBus/DBusConnection.cpp:610-626 | The last section when the timeout came first |
| ReplyTimeout.JudgeKeeps | src/CommonAPI/DBus/DBusConnection.cpp:688-700 | The enforcer looks at an expired entry under the handler's lock |
| ReplyTimeout.SettleKeeps | src/CommonAPI/DBus/DBusConnection.cpp:701-739 | The enforcer acts on what it saw, after the lock was released |
| ReplyTimeout.CollectKeeps | src/CommonAPI/DBus/DBusConnection.cpp:740-779 | A finished entry is moved to the handlers to delete |
| ReplyTimeout.CollectInfiniteKeeps | src/CommonAPI/DBus/DBusConnection.cpp:783-803 | The same for handlers without a timeout |
| ReplyTimeout.DropMappedKeeps | src/CommonAPI/DBus/DBusConnection.cpp:808-829 | The cancelled enforcer leaves handlers that are being replied to alone |
| ReplyTimeout.DropInfiniteKeeps | src/CommonAPI/DBus/DBusConnection.cpp:830-848 | The same for handlers without a timeout |
| ReplyTimeout.TakeTimeoutsKeeps | src/CommonAPI/DBus/DBusConnection.cpp:988-995 | The main loop copies the list of timeouts and clears it |
| ReplyTimeout.MainReplyKeeps | src/CommonAPI/DBus/DBusConnection.cpp:997-1001 | The main loop reports a timeout |
| ReplyTimeout.MainDeleteKeeps | src/CommonAPI/DBus/DBusConnection.cpp:1002-1002 | The main loop deletes what it reported |
| ReplyTimeout.SendKeeps | src/CommonAPI/DBus/DBusConnection.cpp:912-941 | A call is sent and entered; a stale entry of the same address is replaced and its handler deleted |
| ReplyTimeout.SendInfiniteKeeps | src/CommonAPI/DBus/DBusConnection.cpp:945-949 | A call without a timeout |
| ReplyTimeout.SendFailedKeeps | src/CommonAPI/DBus/DBusConnection.cpp:890-910 | A call that could not be sent is answered by the main loop |
| ReplyTimeout.PushReplyKeeps | src/CommonAPI/DBus/DBusConnection.cpp:1792-1800 | A reply made locally is queued |
| ReplyTimeout.ProcessQueueKeeps | src/CommonAPI/DBus/DBusConnection.cpp:22-24 | The main loop delivers or drops a queued reply |
| ReplyTimeout.ClearQueueKeeps | src/CommonAPI/DBus/DBusConnection.cpp:26-28 | A queue is cleared at the end |
| ReplyTimeout.TakeDeletesKeeps | src/CommonAPI/DBus/DBusConnection.cpp:1802-1809 | The list of handlers to delete is copied and cleared |
| ReplyTimeout.DeleteKeeps | src/CommonAPI/DBus/DBusConnection.cpp:1810-1815 | A handler of the copy is deleted |
| ReplyTimeout.CloseKeeps | src/CommonAPI/DBus/DBusConnection.cpp:435-459 | The connection is closed |
| MatchRules.OneMore | src/CommonAPI/DBus/DBusConnection.cpp:1185-1194 | Counting a new signature of a rule keeps every rule's count equal to the number of signatures with handlers |
| MatchRules.OneLess | src/CommonAPI/DBus/DBusConnection.cpp:1209-1216 | So does counting one less; the rule goes with its last signature |
| MatchRules.RuleAdded | src/CommonAPI/DBus/DBusConnection.cpp:1462-1526 | One more rule is one more match on the bus while connected, and counts one |
| MatchRules.RuleRemoved | src/CommonAPI/DBus/DBusConnection.cpp:1528-1556 | One rule less is one match less, and counts one less |
| MatchRules.OmGrows | src/CommonAPI/DBus/DBusConnection.cpp:1237-1263 | An object manager count stays equal to the number of its handler entries |
| MatchRules.OmShrinks | src/CommonAPI/DBus/DBusConnection.cpp:1284-1312 | The same when one is removed; the last takes the rule with it |
| MatchRules.DBusConnection.AddSignalMemberHandler | src/CommonAPI/DBus/DBusConnection.cpp:1166-1200 | The handler is added to its signature and to no other, and all counts stay exact |
| MatchRules.DBusConnection.RemoveSignalMemberHandler | src/CommonAPI/DBus/DBusConnection.cpp:1202-1226 | Removed from its signature only; the result says whether it was the last |
| MatchRules.DBusConnection.AddObjectManagerSignalMemberHandler | src/CommonAPI/DBus/DBusConnection.cpp:1228-1267 | One more entry for the name; names shorter than two characters are refused |
| MatchRules.DBusConnection.RemoveObjectManagerSignalMemberHandler | src/CommonAPI/DBus/DBusConnection.cpp:1269-1315 | The first entry of the handler goes; a missing one is an error only if the name has others |
| MatchRules.DBusConnection.AddRule | src/CommonAPI/DBus/DBusConnection.cpp:1462-1526 | Count or new rule, match on the bus, filter only |
| MatchRules.DBusConnection.Connect | src/CommonAPI/DBus/DBusConnection.cpp:1593-1617 | Afterwards every rule and every name is matched on the bus and counted once |
| MatchRules.DBusConnection.Disconnect | src/CommonAPI/DBus/DBusConnection.cpp:402-435 | Afterwards nothing is matched and the count is 0, while all handlers and rules stay |

## Left out

The D-Bus wire format:

- Floating point: a double or float is an opaque 8-byte word; the conversion between the two is not modelled.
- `Enumeration`, polymorphic structs with a generated `create(serial)`, and the proxies of `vector<bool>` would add cases
  of the same kind; an enumeration is marshalled as its base type.
- The class `RangedInteger` is not part of this repository: the value it has before it is read is a parameter of its type
  in the model, and its signature is taken to be that of an `int`.
- WireFormat.CString: reads no further than the body; the code's C-string copy relies on libdbus having validated the
  terminating NUL.
- WireFormat.DecVariant: an index of no alternative gives a variant without a value, as the visitor (which is not part
  of this repository) does nothing then.
- WireConformance.Conforms: the limits of the Specification on the lengths of arrays and messages and on nesting, and its
  rules for what characters strings and object paths may have, are not part of the model.
- WireInput.DBusInputStream.ReadMap: a map is the sequence of its entries in iteration order, with distinct keys; hash
  tables and their order are not modelled.
- WireInput.DBusInputStream.ReadValue: what it returns after an earlier error is not stated, only that it terminates with
  both stacks restored and the error kept.
- The message header, the body copy of `flush`, and the skipping of whole arrays and maps.

The XML engine:

- XmlParser.ParseLoop: comments, processing instructions, declarations, DOCTYPE and entities it does not know end in the
  outcome `Other`, of which nothing is stated; so does the tree that is left behind a parse error. Flags are the default
  ones.
- XmlParser.ParseBuffer: states nothing of a text with such a tag, as ParseLoop.
- XmlParser.ReadTag: states nothing of such a tag, as ParseLoop.
- XmlParser.ReadRound: states nothing of a round that meets such a tag, as ParseLoop.
- XmlRoundTrip.PrintThenParse: is about documents without PCDATA outside the elements, which the parser drops, printed
  without a declaration (`xml_node::print` with `format_raw`); attribute values are read with the default
  `parse_wconv_attribute`.
- `parse_wnorm`, indented output, the other escaping flags, `wchar_t` mode, Latin-1 input and the detection of encodings.
- Transcoding.DecodeUtf8Block: addresses matter for the block path only; unaligned reads as such are not modelled.
- NodeSets.XpathNodeSet.RemoveDuplicates: addresses of nodes and attributes are distinct numbers; the appending of node
  sets and their memory are not modelled.
- Axes.DescendantAxis: node tests other than `node()`, the or-self variants, the trivial axes (child, parent, self,
  siblings, attribute) and the walks that start from an attribute. The XPath evaluator as a whole.
- DocumentOrder.Compare: the shortcut that compares pointers into one buffer, and items of different documents.
- SiblingLists.XmlDocument.AppendChild: names, values and attributes of nodes, and the copying of trees; a node of the
  model is its kind and its links. Handles into another document are not covered.
- PageAllocator.Allocator.AllocateMemory: page headers and the alignment of page addresses are abstracted to offsets in a
  page; a large block must not be the first one of an allocator, which the code asserts too.
- PageAllocator.Allocator.Destroy: the buffers that a document owns besides its pages.

`DBusConnection`:

- ReplyTimeout.SendKeeps: sending and entering into the map is one step; libdbus completes only calls that are open and
  starts no callback on a closed connection. Clocks are nondeterministic: an entry may expire at any time.
- ReplyProgress.EveryRunCanEnd: that an enabled step is taken some time is up to the scheduler, libdbus and the clock. A
  callback that was entered but has not begun when the connection is closed stays where it is.
- ReplyTimeout.AtMostOnce: what a callback does is not modelled; handlers stay in the state after their deletion, with a
  count, so that a second deletion would show.
- MatchRules.DBusConnection.AddRule: libdbus calls succeed, and reference counts do not wrap at 32 bits; the number of
  installed filters is left out, because the two ways to add a rule test differently for the first one.
- libdbus itself, sockets, watches, threads, logging, selective broadcasts, object path registration, the service
  registry, the factory, `DBusAddressTranslator`, the main loop and the stub and proxy templates.

Hashing:

- The 64-bit and 128-bit variants, and any claim about collisions beyond one block.
- Murmur.MurmurHash3: reading a block assumes a little-endian host, as the code does.
