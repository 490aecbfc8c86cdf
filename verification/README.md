# A verified model of the parsers, the audio path, the queue and the checksum of the board support package

This Dafny project models the code with the most state in the repository and proves what it is for.

- **cJSON** (`Json*.dfy`, `CText`): the recursive-descent parser over heap nodes, the allocating and the buffered
  printer, the in-place minifier and the doubly linked child list. `JsonText` and `JsonParse` say what is printed and
  what is parsed; the methods are proved against them, and the round trip is proved between them. `JsonSyntax`,
  `JsonNumber`, `JsonLayout`, `JsonPieces` and `JsonKept` say on their own what texts are accepted, what they mean,
  how printed text is laid out and what minifying leaves.
- **ezXML** (`Xml*.dfy`, `Utf16`): the three chains through the children of a tag, the check for circular entities,
  the in-place decoder, the encoder, the parser and the serialiser over tags in memory, and the conversion from
  UTF-16. `XmlReferences`, `XmlSpelled` and `XmlCanonical` say on their own how documents may be spelled, what they
  mean and which spelling is written.
- **Terminators** (`PastEnd`): for which texts two loops read on behind the terminator.
- **Encodings** (`Utf8`, `Utf8Bits`, `Bits`, `Numerals`): the two UTF-8 encoders, bit operation by bit operation, and
  numerals; `Arith` and `Seqs` hold what several modules need of numbers and sequences.
- **Audio** (`AudioRing`, `AudioDac`, `AudioSteps`): the ring of buffers with its partial read, the double-buffered
  DAC with its pauses, any run of it as streams, and every interleaving of one writer and one reader.
- **Mixer** (`MixerThread`, `MixerRuns`, `MixerDouble`): messages, the music list, the ownership of blocks under
  interrupts, what the messages bring about over several turns, and the doubling of samples inside one block.
- **Sound delay** (`SoundDelay`): the delay line in a circular buffer, refining a recurrence.
- **Kfifo** (`Kfifo`): the byte ring with wrapping indices.
- **CRC-32** (`Crc`): the nibble table, the bit-serial register and the errors it detects.

A C string is a `string` (one `char` for a byte); a pointer into text is the text from there on, or an index.
Allocation succeeds. Where a property of the code fails for some inputs, the contract says for exactly which, and
"Findings" names one.

## Model

| member | source | states |
|---|---|---|
| `JsonRoundTrip.ParsePrint` | packages/cJSON/cJSON.c:363-664 | for every tree of null, booleans, 32-bit integers, NUL-free strings, arrays and objects, parsing the formatted or the compact text gives that tree and leaves nothing behind it |
| `JsonSyntax.AcceptsExactly` | packages/cJSON/cJSON.c:329-553 | told to read to the end, the parser accepts exactly the texts that spell a document, with white space between any tokens and every spelling of strings and numbers, and reads each as what it means |
| `JsonSyntax.ReadDoc` | packages/cJSON/cJSON.c:363-553 | a document in front of anything that does not continue it is read as what it means, and lies in the domain of the parsing methods |
| `JsonSyntax.Parse` | packages/cJSON/cJSON.c:329-361 | the parser over nodes: a new tree whose value is what the text means, or null exactly when the text spells nothing |
| `JsonNumber.NumberIs` | packages/cJSON/cJSON.c:102-121 | every spelling of a number that the code takes is read to its end, as its digits before and behind the point times ten to the power of its exponent less the digits behind the point |
| `JsonNumber.NumberLaw` | packages/cJSON/cJSON.c:102-121 | for every number of section 6 of RFC 8259: the value read, times ten for each digit of the fraction, is the number made of all its digits times ten to the power of its exponent |
| `JsonNumber.ScaledIs` | packages/cJSON/cJSON.c:115 | scaling up multiplies by a power of ten, and scaling down divides by it |
| `JsonNumber.OnlyNumbers` | packages/cJSON/cJSON.c:102-121 | whatever is read as a number is such a spelling |
| `JsonLayout.FormattedLayout` | packages/cJSON/cJSON.c:440-664 | in the formatted text of every tree each member stands on a line of its own behind a tab for every open bracket, a tab stands behind every colon and a space behind the commas of arrays, and no string holds a control character |
| `JsonSyntax.EscapeIs` | packages/cJSON/cJSON.c:262-315 | a printed character is itself, its short escape, or four digits with small letters |
| `JsonReader.ParseWithOpts` | packages/cJSON/cJSON.c:329-345 | the parser over nodes, for every text in which no literal that is read is malformed: null exactly when the text does not parse; otherwise a new tree of nodes whose value, with its doubly linked child lists, is the one the grammar functions give, and the position where the parse ended |
| `JsonReader.ParseValue` | packages/cJSON/cJSON.c:363-375 | one value read into a blank node: it fails, ends and yields the value as the grammar function says, and the node is a well-formed tree of new nodes |
| `JsonReader.ParseArray` | packages/cJSON/cJSON.c:412-437 | the node becomes an array whose chained children, in order, are the items of the text; a failure exactly where the grammar fails |
| `JsonReader.ParseObject` | packages/cJSON/cJSON.c:520-553 | the node becomes an object whose chained children carry the keys and values of the text, in order; a failure exactly where the grammar fails |
| `JsonReader.ParseString` | packages/cJSON/cJSON.c:198-255 | the buffer sized by the counting pass holds the decoded string with its terminator; the decoded text and the end are those of the grammar |
| `JsonReader.CountedEnough` | packages/cJSON/cJSON.c:203-205 | the counting pass never allocates less than decoding writes, for every literal with four hexadecimal digits behind each unicode escape |
| `JsonReadable.PrintedReadable` | packages/cJSON/cJSON.c:198-205 | every printed text lies in the domain of the parsing methods, and parses to the printed tree |
| `JsonReadable.Reread` | packages/cJSON/cJSON.c:348-361 | a tree of nodes printed in either format and parsed again with the terminator required gives new nodes with an equal value |
| `JsonEscape.PairEscape` | packages/cJSON/cJSON.c:222-243 | the two units of any character above the basic plane, spelled in hexadecimal digits of either case, are paired back to that character and stored in its UTF-8 form |
| `JsonEscape.EscapesBack` | packages/cJSON/cJSON.c:198-255 | a string literal written wholly in escapes, any sequence of Unicode scalar values, is decoded to the UTF-8 form of those characters |
| `JsonWriter.PrintText` | packages/cJSON/cJSON.c:348-349 | the allocating printer, with every length computed beforehand and every copy inside its block, makes exactly the text of the tree as a terminated string |
| `JsonWriter.PrintArray` | packages/cJSON/cJSON.c:440-517 | the text of an array of nodes, composed from the separately printed items in a block of the precomputed length |
| `JsonWriter.PrintObject` | packages/cJSON/cJSON.c:556-664 | the text of an object of nodes, composed from the separately printed names and values in a block of the precomputed length |
| `JsonWriter.RoomEnough` | packages/cJSON/cJSON.c:481-491 | the length summed up for an array covers the joined text of its items |
| `JsonWriter.MembersRoomEnough` | packages/cJSON/cJSON.c:626-635 | the length summed up for an object covers the joined text of its members |
| `Bits.Pow2gtIs` | packages/cJSON/cJSON.c:123 | the smallest power of two that is not below the argument, for all arguments up to 2^30 |
| `JsonBuffer.PrintBuffer.Ensure` | packages/cJSON/cJSON.c:127-142 | what has been printed is kept, in the old buffer or a new one, and the room asked for lies behind the offset |
| `JsonBuffer.PrintBuffer.PrintValue` | packages/cJSON/cJSON.c:378-409 | over nodes: behind what the buffer held stands the text of the value, split into the part before the offset and a terminated string at the offset; every write stays in the room granted; the tree does not change |
| `JsonBuffer.PrintBuffered` | packages/cJSON/cJSON.c:351-359 | for every tree of nodes, initial size from one byte on and format, the terminated string at the returned place is the text the allocating printer makes |
| `JsonMinify.Minify` | packages/cJSON/cJSON.c:741-756 | in place, the write index never passing the read index: the terminated string becomes itself without white space and comments outside its literals |
| `JsonMinify.MinifyPrint` | packages/cJSON/cJSON.c:741-756 | minifying the formatted text of any tree gives its compact text |
| `JsonPieces.MinifiedIs` | packages/cJSON/cJSON.c:741-756 | of any text made of blanks, comments, literals and other characters, the literals and the other characters are left, in order |
| `JsonPieces.OnlyPieces` | packages/cJSON/cJSON.c:741-756 | every text that the minifier reads to its end is made of such pieces |
| `JsonKept.MeaningKept` | packages/cJSON/cJSON.c:741-756 | minifying any document leaves it without its white space, and parsing it gives the same value as before |
| `PastEnd.MinifyPassesExactly` | packages/cJSON/cJSON.c:741-756 | the reading index passes the terminator exactly on the texts with a literal or a block comment that does not end |
| `JsonList.AddItemToArray` | packages/cJSON/cJSON.c:677 | the children are the old ones and the new one, with `next`, `prev` and `child` consistent and all trees separate |
| `JsonList.InsertItemInArray` | packages/cJSON/cJSON.c:690-691 | the children are the old ones with the new one at the given place (at the end when that is past it, at the front when negative), all links consistent |
| `JsonList.DetachItemFromArray` | packages/cJSON/cJSON.c:683-684 | the child at the place leaves with its links cleared and stands apart; the others stay in order, all links consistent; null and no change past the end |
| `JsonList.ReplaceItemInArray` | packages/cJSON/cJSON.c:692-694 | the new node takes the place of the child there, which is unlinked and stands apart as a tree of its own, to be deleted; no change past the end |
| `JsonList.InsertThenDetach` | packages/cJSON/cJSON.c:683-691 | over nodes: an insertion and a detachment at the same place give the children back and the node apart again, all links consistent |
| `JsonList.DetachInserted` | packages/cJSON/cJSON.c:683-691 | detaching where something was inserted gives the list back exactly if that was not past the end |
| `JsonList.PlacesCount` | packages/cJSON/cJSON.c:683-694 | places count from zero; past the end an insertion appends and the others change nothing |
| `JsonList.ReplaceIsDetachInsert` | packages/cJSON/cJSON.c:692-694 | a replacement is a detachment and an insertion at the same place |
| `Utf8Bits.SwitchIsUtf8` | packages/cJSON/cJSON.c:236-243 | the length-switch encoder, bit operation by bit operation, gives the form of section 3 of RFC 3629 for every code point |
| `Utf8Bits.BitsAreUtf8` | packages/ezXML/ezxml.c:186-192 | the bit-count encoder gives the form of section 3 of RFC 3629 for every code point |
| `Utf8Bits.EncodersAgree` | packages/ezXML/ezxml.c:186-192 | the two encoders agree on every code point |
| `Utf8.Examples` | packages/cJSON/cJSON.c:236-243 | the form of UTF-8 gives the examples of section 7 of RFC 3629 |
| `Utf8Bits.BitEncodeSafe` | packages/ezXML/ezxml.c:186-192 | for every positive 32-bit number at most six bytes are written, none of them zero, so a decoded reference fits where it stood |
| `Utf16.PairUndoes` | packages/ezXML/ezxml.c:441-446 | the pairing of surrogates inverts section 2.1 of RFC 2781 |
| `Utf16.ConvertIsUtf8` | packages/ezXML/ezxml.c:429-458 | any sequence of Unicode scalar values in UTF-16 of either byte order, behind its mark, is converted to their UTF-8 form |
| `Utf16.Str2Utf8` | packages/ezXML/ezxml.c:429-458 | the conversion loop with its growing buffer computes that function; a text without a mark is left alone |
| `XmlIndex.Insert` | packages/ezXML/ezxml.c:856-895 | the children stay sorted by offset, equal offsets in order of insertion, and the lists by name stay right; the list of firsts stays right if and only if the tag did not go in front of a first child of its own name, and otherwise is the new tag and the old list |
| `XmlCut.Cut` | packages/ezXML/ezxml.c:973-1004 | the other children keep their order and their lists by name, the tag loses its links; the list of firsts stays right if and only if no other first child stands between a cut first child and the next one of its name; the walk by name still finds the first child of every name if and only if that was not so for the first child of all |
| `XmlCut.CutRoot` | packages/ezXML/ezxml.c:973-1004 | a tag without a parent loses its links; the next one of its name, if any, gets its `sibling` |
| `XmlCut.Child` | packages/ezXML/ezxml.c:67-72 | the walk along `sibling` finds the first child of the name in document order, or null, wherever such a walk serves every name |
| `XmlCut.Idx` | packages/ezXML/ezxml.c:76-80 | from a tag so found the walk along `next` finds the tag that many later among those of the name in document order, or null |
| `XmlCut.AddChild` | packages/ezXML/ezxml.c:899-911 | wherever the new child goes, the children are the old ones with it in its place, and the walk by name finds the first child of every name |
| `XmlCut.StillVisible` | packages/ezXML/ezxml.c:884 | an old first child left behind a new one of its name is passed over by the walk |
| `XmlCut.Append` | packages/ezXML/ezxml.c:899-911 | a child added behind all others keeps all three chains right |
| `XmlCut.AppendAll` | packages/ezXML/ezxml.c:228-237 | any run of additions in the order of the offsets adds exactly these tags and keeps all three chains right |
| `XmlCut.AppendThenCut` | packages/ezXML/ezxml.c:973-1004 | cutting a just-added tag restores the children and all three chains |
| `XmlBroken.InsertInFront` | packages/ezXML/ezxml.c:884 | from new tags: a child inserted in front of a first child of its name leaves the list of firsts wrong |
| `XmlBroken.CutApart` | packages/ezXML/ezxml.c:978-982 | from new tags: of the children a, b, a the first is cut; the list of firsts is wrong, and the walk by name no longer finds every child |
| `XmlLinks.ParsedTidy` | packages/ezXML/ezxml.c:477-607 | whatever text is parsed, at every level of the tree the offsets of the children do not decrease and lie within the text |
| `XmlEntities.EntOk` | packages/ezXML/ezxml.c:275-286 | fails exactly when the name is reached from the value through the declared entities; its recursion ends because the entities declared so far are ranked |
| `XmlEntities.RankedAcyclic` | packages/ezXML/ezxml.c:275-286 | entities that only refer to entities of lower rank contain no circular reference, direct or indirect |
| `XmlEntities.MatchAdd` | packages/ezXML/ezxml.c:198-201 | a later declaration of a name changes no reference: the first declaration wins |
| `XmlEntities.Doctype.Declare` | packages/ezXML/ezxml.c:345-363 | a declaration is accepted exactly when it is not circular, and the declared set stays free of circular references |
| `XmlEntities.Doctype.DeclareAll` | packages/ezXML/ezxml.c:345-363 | over any sequence of declarations, exactly those before the first circular one are accepted, and the set stays free of circular references |
| `XmlDocument.DeclaredReady` | packages/ezXML/ezxml.c:345-363 | whatever was accepted, the decoder may work with it: its replacement of entities ends |
| `XmlDocument.DecodeDeclared` | packages/ezXML/ezxml.c:165-225 | declarations up to the first circular one, then a text: decoding ends and gives the recursive replacement of every reference |
| `XmlDecode.Rescan` | packages/ezXML/ezxml.c:196-212 | putting the value of an entity in place and scanning it again gives what replacing recursively gives |
| `XmlDecode.ExpandCat` | packages/ezXML/ezxml.c:176-215 | references are replaced piece by piece, for texts in which every reference is complete |
| `XmlText.NormalizeLines` | packages/ezXML/ezxml.c:170-175 | in place, for a text that does not end in a carriage return, every carriage return with or without a line feed becomes one line feed, and nothing outside the text changes |
| `PastEnd.LinesPassExactly` | packages/ezXML/ezxml.c:170-175 | the index passes the terminator exactly on the texts that `NormalizeLines` excludes |
| `PastEnd.EndsInReturnMeans` | packages/ezXML/ezxml.c:170-175 | these are the texts that end in a carriage return, or in one and a line feed |
| `XmlText.Decode` | packages/ezXML/ezxml.c:165-225 | the in-place decoder, moving the rest of the text and growing into a new buffer when needed, leaves the text with normalised line ends and every reference replaced recursively; bytes outside the text do not change |
| `XmlReferences.NumberReplaced` | packages/ezXML/ezxml.c:181-194 | a reference by number, in decimal or in hexadecimal digits of either case, with whatever may stand in front of them, is replaced by the UTF-8 form of the code point it names |
| `XmlReferences.StrtolIs` | packages/ezXML/ezxml.c:182-183 | digits of any number and length are read as the number they denote, which stops at the largest `long` |
| `XmlReferences.NameReplaced` | packages/ezXML/ezxml.c:196-212 | a reference to each of the five predefined entities is replaced by its character |
| `XmlReferences.DeclaredReplaced` | packages/ezXML/ezxml.c:196-212 | a reference to a declared entity whose value has no ampersand is replaced by that value |
| `XmlReferences.AmpersandStays` | packages/ezXML/ezxml.c:196-215 | an ampersand that begins no reference stays |
| `XmlReferences.DecodedIs` | packages/ezXML/ezxml.c:165-215 | a text made of characters, line ends and references is decoded to what its pieces stand for, in content and in attribute values |
| `XmlReferences.DataKept` | packages/ezXML/ezxml.c:181-215 | in character data nothing is replaced |
| `XmlEncode.AmpEncode` | packages/ezXML/ezxml.c:674-695 | behind what the growing buffer held stands the encoded text, with room for what follows |
| `XmlEncode.DecodeUndoesEncode` | packages/ezXML/ezxml.c:674-695 | decoding undoes encoding for every NUL-free text, with any entities declared behind the predefined ones; for an attribute value exactly if it has no vertical tab and no form feed |
| `XmlRoundTrip.ParsePrint` | packages/ezXML/ezxml.c:700-788 | for every tree with proper names, distinct attributes and children in order within the text, parsing the serialised text gives the tree with each feed in an attribute value turned into a blank |
| `XmlRoundTrip.RoundTrip` | packages/ezXML/ezxml.c:477-607 | the round trip gives the same tree, with names, attributes, text and offsets, exactly if no attribute value has a vertical tab or a form feed |
| `XmlRoundTrip.FeedLost` | packages/ezXML/ezxml.c:213 | a tree with a form feed in an attribute value that is read back as another one |
| `XmlParser.ParseStr` | packages/ezXML/ezxml.c:477-607 | one pass over the text, with every error: the outcome is that of the grammar; after a success the new tags show exactly its tree, and every one of them holds its children in its three chains |
| `XmlSpelled.ReadDocument` | packages/ezXML/ezxml.c:477-607 | every document, with white space within its tags, either quote, attributes without a value, empty-element tags, references, line ends, character data and comments, is read as the tree it means |
| `XmlSpelled.ParseSpelled` | packages/ezXML/ezxml.c:477-607 | over tags in memory: every such document gives new tags that show that tree |
| `XmlSpelled.DataAdded` | packages/ezXML/ezxml.c:571-575 | a section of character data adds exactly its data to the text of the innermost element |
| `XmlSpelled.CommentGone` | packages/ezXML/ezxml.c:567-570 | a comment changes nothing |
| `XmlSpelled.EmptyTagSame` | packages/ezXML/ezxml.c:541-549 | an empty-element tag is a start tag and an end tag with nothing between them |
| `XmlSpelled.QuotesAlike` | packages/ezXML/ezxml.c:517-529 | a value between single quotes is the same between double quotes |
| `XmlSpelled.WrongEnd` | packages/ezXML/ezxml.c:560-566 | the end tag of an element that is not the innermost one is an error |
| `XmlSpelled.NoEnd` | packages/ezXML/ezxml.c:595-606 | a document that ends while an element is open, or before one was, is an error |
| `XmlSpelled.SecondRoot` | packages/ezXML/ezxml.c:498-500 | a second root is an error |
| `XmlSpelled.NeverEnds` | packages/ezXML/ezxml.c:567-575 | a comment or a section of character data that does not end is an error |
| `XmlSpelled.HyphensInside` | packages/ezXML/ezxml.c:567-570 | two hyphens in a comment that do not end it are an error |
| `XmlSpelled.QuoteOpen` | packages/ezXML/ezxml.c:517-529 | a value whose quote is not closed is an error |
| `XmlSpelled.SlashAlone` | packages/ezXML/ezxml.c:541-549 | a slash in a start tag that does not end it is an error |
| `XmlSpelled.NoMarkup` | packages/ezXML/ezxml.c:498-592 | a character behind an opening bracket that begins no markup is an error |
| `XmlSpelled.NoTag` | packages/ezXML/ezxml.c:491-492 | a text without any tag is an error |
| `XmlParser.OpenAt` | packages/ezXML/ezxml.c:498-558 | a start tag: the attributes in order with their decoded values, the tag linked into its parent, closed at once after a slash, an error for a missing quote or end |
| `XmlParser.CloseAt` | packages/ezXML/ezxml.c:560-566 | an end tag: an error unless the name is that of the innermost open tag |
| `XmlParser.Parser.Open` | packages/ezXML/ezxml.c:228-237 | a new tag becomes the last child of the innermost open one, at the end of its text, and all chains of all tags stay right |
| `XmlParser.Parser.Close` | packages/ezXML/ezxml.c:263-272 | the innermost open tag is finished with all below it, and its parent is the innermost one |
| `XmlParser.Parser.Content` | packages/ezXML/ezxml.c:240-260 | decoded text joins the text of the innermost open tag and of no other |
| `XmlTags.ShowsOne` | packages/ezXML/ezxml.c:477-607 | tags in memory show one tree only |
| `XmlWriter.ToXml` | packages/ezXML/ezxml.c:752-788 | the serialiser, walking the tags along `child` and `ordered` with its growing buffer, writes exactly the text of the tree they show, each write inside the room it has made |
| `XmlCanonical.Written` | packages/ezXML/ezxml.c:700-788 | the serialised text of a tree is one spelling of it, to the character: one blank in front of each attribute, double quotes, a start tag and an end tag, and references only where a character needs one |
| `XmlWriter.PutAttrs` | packages/ezXML/ezxml.c:713-722 | of several attributes with one name only the first is written |
| `XmlDocument.Reread` | packages/ezXML/ezxml.c:752-788 | tags written and read again: new tags that show the same tree exactly if no attribute value has a vertical tab or a form feed |
| `XmlDocument.ParseDocument` | packages/ezXML/ezxml.c:477-493 | a text in UTF-8, or in UTF-16 of either byte order, gives the outcome of the grammar on its UTF-8 form |
| `XmlDocument.RoundTripUtf16` | packages/ezXML/ezxml.c:477-493 | a tree whose text is written in UTF-16 is read back exactly if no attribute value has a vertical tab or a form feed |
| `AudioRing.DataNodeList.Write` | drivers/audio/drv_audio_icodec.c:138-168 | the buffer goes to the end of the queue exactly if a slot besides the one kept free is left |
| `AudioRing.DataNodeList.Read` | drivers/audio/drv_audio_icodec.c:170-249 | exactly the first pending bytes, as many as there are up to the size, are copied and leave; each buffer read to its end is reported once, in the order of writing |
| `AudioRing.DataNodeList.Empty` | drivers/audio/drv_audio_icodec.c:251-263 | ends, reports every buffer once in order and leaves the ring empty |
| `AudioSteps.AnyInterleaving` | drivers/audio/drv_audio_icodec.c:138-249 | for every interleaving of one writer and one reader between the sections with interrupts disabled: the bytes delivered are a prefix of the accepted buffers, the buffers reported are the first ones accepted, each once, and all of them when the reader has caught up |
| `AudioSteps.NoOverwrite` | drivers/audio/drv_audio_icodec.c:160-166 | the slot the writer is about to store into holds no unread buffer, in every reachable state |
| `AudioSteps.WriteAlone` | drivers/audio/drv_audio_icodec.c:138-168 | a write that nobody interrupts takes the buffer exactly if a slot besides the one kept free is left |
| `AudioSteps.ReadAlone` | drivers/audio/drv_audio_icodec.c:170-249 | a read that nobody interrupts delivers exactly as many bytes as are wanted, or all there are |
| `AudioDac.AudioCodec.Write` | drivers/audio/drv_audio_icodec.c:390-418 | the buffer is queued exactly if there is room; a paused half takes what it can, and when it is full joins the halves played, as it stands in the buffer; the other half does not change |
| `AudioDac.AudioCodec.HalfHandler` | drivers/audio/drv_audio_icodec.c:541-582 | the first half is refilled with the next bytes or the device pauses with the rest of that half, silent, to fill; the other half does not change |
| `AudioDac.AudioCodec.FinishHandler` | drivers/audio/drv_audio_icodec.c:584-617 | the second half is refilled with the next bytes or the device pauses with the rest of that half, silent, to fill; the other half does not change |
| `AudioDac.AudioCodec.Close` | drivers/audio/drv_audio_icodec.c:495-526 | what is in the ring of an open device is given up, and every buffer in it is reported once; a closed device does not change |
| `AudioDac.AudioCodec.Open` | drivers/audio/drv_audio_icodec.c:352-389 | the device is open, and nothing else changes |
| `AudioDac.AudioCodec.PlayedFirst` | drivers/audio/drv_audio_icodec.c:541-617 | the halves in the order of filling make up the beginning of what was accepted, and all of it when nothing is pending |
| `AudioDac.Run` | drivers/audio/drv_audio_icodec.c:390-617 | over any run of writes and DMA reports, from any valid state: the ring, the paused half and the halves played are exactly those of the streams, and the halves read off the buffer when they were full are what was added to those played; the buffers reported and those in the ring are those accepted, in order; a write succeeds while there is room |
| `AudioDac.Happen` | drivers/audio/drv_audio_icodec.c:390-617 | one write or report: the state is that of the streams, and a half counted as played is the half that stands in the buffer |
| `AudioDac.StreamsMove` | drivers/audio/drv_audio_icodec.c:390-617 | a half that ends takes the next 1024 bytes of the ring, and the device pauses exactly when there are fewer; a paused half goes on exactly when a buffer brings what it lacks |
| `AudioDac.AllKept` | drivers/audio/drv_audio_icodec.c:390-617 | in the streams nothing is lost, repeated or moved: the halves played, the paused half and the ring together are what was there and what was accepted, in order |
| `MixerThread.Mixer.GetData` | function/mixer.c:738-795 | exactly the first unread words, as many as there are up to those wanted, stand at the front of the buffer; what is left stays in order and no used-up node stays; every block stays in one place |
| `MixerThread.Mixer.GetDataLen` | function/mixer.c:798-816 | the number of unread words |
| `MixerThread.Mixer.MusicIn` | function/mixer.c:582-615 | a block joins the end of the music, or is freed when it is empty or music is not mixed in |
| `MixerThread.Mixer.Flush` | function/mixer.c:719-736 | the music list is emptied and each of its blocks freed once |
| `MixerThread.Mixer.Callbacks` | function/mixer.c:482-493 | every buffer the DAC has reported is freed, and each once |
| `MixerThread.Mixer.Send` | function/mixer.c:1053-1058 | the block goes into the ring of the DAC exactly if it has room, or is freed; what the DAC has accepted grows by its bytes exactly in the first case |
| `MixerThread.Mixer.Mux` | function/mixer.c:993-1073 | how much is mixed, that exactly so much music leaves the list, that the words are the music with the microphone and its echo, for odd numbers as well, and that they reach the DAC if its ring had room; no block is lost on any path, whatever halves end meanwhile |
| `MixerThread.Mixer.Single` | function/mixer.c:1076-1129 | how much is made, that the words are the microphone and its echo on both channels, and that they reach the DAC if its ring had room; no block is lost on any path, whatever halves end meanwhile |
| `MixerThread.Mixer.Mute` | function/sound_delay.c:401-418 | the first forty non-empty sections are silenced and counted |
| `MixerThread.Mixer.DeviceWrite` | function/mixer.c:1427-1435 | refused exactly while paused; otherwise the block is in the last message, or freed when the queue is full |
| `MixerThread.Mixer.Handle` | function/mixer.c:1213-1331 | whether music is mixed in, whether the mixer is paused, its sample rate and what music is left after every message, and that each block of the music and the DAC given up is freed once |
| `MixerThread.Mixer.OpenDac` | function/mixer.c:495-538 | the DAC is open |
| `MixerThread.Mixer.CloseDac` | function/mixer.c:561-579 | a paused mixer gives up what the DAC holds, and each of its blocks is freed once |
| `MixerThread.Mixer.Interrupted` | drivers/audio/drv_audio_icodec.c:541-617 | any halves that end while the thread holds blocks: what the DAC has reported is freed, and no block is lost |
| `MixerThread.Mixer.Turn` | function/mixer.c:1193-1359 | one turn of the thread obeys the first message and then takes the path for mixing, for the microphone alone or none: which words are made and sent, and what music is left; every block stays in one place |
| `MixerRuns.MusicStarts` | function/mixer.c:1213-1359 | a playing mixer that is told to mix music and then gets some has it behind the music there was, mixes it with the microphone in that turn, and sends what it made |
| `MixerRuns.MusicStops` | function/mixer.c:1231-1252 | told to mix none, a playing mixer has no music left and makes the microphone alone |
| `MixerRuns.MusicLost` | function/mixer.c:582-615 | music that comes while none is mixed in is lost |
| `MixerRuns.Pauses` | function/mixer.c:1280-1302 | told to pause, the mixer has no music left, closes the DAC unless music was mixed in, and makes no words and sends nothing in any number of turns |
| `MixerRuns.Resumes` | function/mixer.c:1303-1327 | told to play again, a paused mixer opens the DAC and makes words |
| `MixerRuns.OtherMessages` | function/mixer.c:1212-1279 | a paused mixer opens and closes the DAC as it is told, and a playing one takes a new sample rate |
| `MixerRuns.MixedNearest` | function/sound_delay.c:344-394 | each mixed word is the 16-bit value nearest to the music at its volume and the voice of its frame |
| `MixerRuns.HeardIs` | function/mixer.c:835-852 | each whole sample of the microphone stands on both channels of its frame, or silence in the first sections |
| `MixerRuns.BytesBack` | function/mixer.c:993-1073 | words written as bytes and read as samples are the same words |
| `MixerRuns.LowFirst` | function/mixer.c:993-1073 | a sample has its low byte first, and is negative from 0x8000 on |
| `MixerRuns.EchoedIs` | function/mixer.c:1076-1129 | both words of a frame are its voice |
| `MixerThread.Mixer.ExactlyOnce` | function/mixer.c:165-236 | every block is in exactly one of the pools, the application, the messages, the music list and the ring of the DAC |
| `MixerThread.Run` | function/mixer.c:1193-1359 | however the application, the thread and the DMA take turns, with halves ending inside the turns as well, no block is lost and none is in two places |
| `MixerDouble.DoublePadding` | function/mixer.c:835-852 | the doubling loop, on a source inside its own destination, computes its passes one after the other |
| `MixerDouble.DoublingExact` | function/mixer.c:835-852 | every source word stands twice in order, whatever the block holds, exactly if there is at most one word more than the offset of the source |
| `MixerDouble.HalfBlock` | function/mixer.c:1031-1036 | a source in the second half of its block is always doubled right |
| `SoundDelay.DelayLine.Config` | function/sound_delay.c:233-266 | the line is cleared and stopped, its length set for the rate, the cursor inside it |
| `SoundDelay.DelayLine.StartPlay` | function/sound_delay.c:272-280 | the line is cleared and started |
| `SoundDelay.DelayLine.ChangeSampleTime` | function/sound_delay.c:140-183 | a new setting clears the line and sets its length and delay, limited by the buffer for the rate; the cursor stays inside it |
| `SoundDelay.DelayLine.SetSampleVol` | function/sound_delay.c:200-231 | a new setting clears the line and sets its length, delay and decay; the cursor stays inside it |
| `SoundDelay.DelayLine.SinglePlaying` | function/sound_delay.c:299-342 | each frame, and with an odd number of words the one word past the end that completes the last, becomes on both channels the limited amplified sum of the left sample and the recurrence m[k] = limit(m[k - D] / 2 + right[k]) at the delay; the circular buffer holds the last D values |
| `SoundDelay.DelayLine.MultiPlaying` | function/sound_delay.c:344-394 | each frame of music is mixed with that voice, at the volume of the music; an odd number of words is completed in the same way |
| `SoundDelay.HoldsNext` | function/sound_delay.c:299-394 | overwriting the oldest entry and stepping down keeps the circular buffer equal to the last values of the recurrence |
| `SoundDelay.SplitIndependent` | function/sound_delay.c:299-394 | processing frames in two calls gives what processing them in one gives |
| `SoundDelay.VolumeBound` | function/sound_delay.c:327 | no product overflows 32 bits, whatever the samples, exactly for volumes up to 32768 |
| `SoundDelay.AmplifyExact` | function/sound_delay.c:327 | up to that volume the sample is what exact arithmetic gives |
| `SoundDelay.Saturates` | function/sound_delay.c:282-292 | the filter gives the 16-bit value nearest to the sample, and louder never becomes softer |
| `SoundDelay.Wraps` | function/sound_delay.c:327 | a 32-bit product is the number itself up to a multiple of its range |
| `SoundDelay.VoiceNearest` | function/sound_delay.c:299-342 | up to volume 32768 the voice is the 16-bit value nearest to the exact sum of the delayed value and the left sample at that volume |
| `SoundDelay.MemoryNearest` | function/sound_delay.c:311-320 | what goes into the line is the 16-bit value nearest to half of what comes out and the right sample |
| `SoundDelay.EchoHeard` | function/sound_delay.c:299-342 | at volume 16 a single right sample in silence is not heard for the delay, then as it is, and then halved with every further delay |
| `SoundDelay.BlendExact` | function/sound_delay.c:373-380 | the music at its volume never overflows, so the mixed sample is what exact arithmetic gives |
| `SoundDelay.BlendNearest` | function/sound_delay.c:373-380 | the mixed sample is the 16-bit value nearest to the sum of the music at its volume and the voice |
| `SoundDelay.FramesAre` | function/sound_delay.c:299-394 | what the two calls leave in their buffers, frame by frame |
| `Kfifo.Init` | beken378/common/fifo.h:30-49 | accepted exactly when the size is zero or a power of two; then an empty queue |
| `Kfifo.Fifo.Put` | beken378/common/fifo.h:100-121 | as many bytes as there is room for are appended, wherever the wrapping indices stand |
| `Kfifo.Fifo.Get` | beken378/common/fifo.h:134-154 | the first bytes, as many as there are up to those wanted, are copied out and leave, wherever the wrapping indices stand |
| `Kfifo.Fifo.Peek` | beken378/common/fifo.h:184-196 | copies what the next `Get` would give and changes nothing |
| `Kfifo.Fifo.CopyOut` | beken378/common/fifo.h:166-182 | the bytes of the ring from a place on, in the two pieces |
| `Kfifo.WindowAt` | beken378/common/fifo.h:166-182 | byte after byte, around the end of the ring |
| `Kfifo.Fifo.DataSize` | beken378/common/fifo.h:156-159 | the number of bytes in the queue |
| `Kfifo.Fifo.Unused` | beken378/common/fifo.h:161-164 | the room left: both together are the size |
| `Kfifo.Run` | beken378/common/fifo.h:100-196 | any run of puts and gets, from any state, takes out and leaves exactly what a bounded queue does |
| `Kfifo.ServeKept` | beken378/common/fifo.h:100-196 | in the bounded queue what was there and what was accepted is what was taken out and what is left, in order |
| `Bits.PowerTest` | beken378/common/fifo.h:35 | `size & (size - 1)` is zero for a positive size exactly if that is a power of two |
| `Kfifo.ModWord` | beken378/common/fifo.h:106-117 | the size divides the range of the 32-bit indices, so their overflow does not move a slot |
| `Crc.LfsCrc` | packages/littlefs/lfs_crc.c:4-20 | the checksum is that of the register that shifts bit by bit over the message, for every buffer and start value |
| `Crc.StepIsSerial` | packages/littlefs/lfs_crc.c:14-17 | two steps of the table feed the eight bits of a byte into the bit-serial register |
| `Crc.TableEntry` | packages/littlefs/lfs_crc.c:5-10 | every entry of the table is the index after four shifts |
| `Crc.ByteDetected` | packages/littlefs/lfs_crc.c:4-20 | a buffer in which one byte is changed has another checksum |
| `Crc.ChecksumDiffers` | packages/littlefs/lfs_crc.c:4-20 | buffers of one length that differ nowhere but within 32 consecutive bits have different checksums |
| `Crc.DetectionExact` | packages/littlefs/lfs_crc.c:4-20 | for byte buffers: 32 bits are the most within which every error is detected |

## Findings

Places where the code does not do what its documentation or its callers expect, each with the exact condition.

- `ezxml_insert` (packages/ezXML/ezxml.c:884): a tag that goes in front of a first child of its own name leaves the
  old first child in the `sibling` chain. `XmlIndex.Insert` has the condition, `XmlBroken.InsertInFront` a run: "a" at
  5, then "a" at 3. A walk by name passes over the old first child and still finds every name (`XmlCut.AddChild`); a
  later insertion or cut meets a chain that is not the list of firsts.
- `ezxml_cut` (packages/ezXML/ezxml.c:978-982): a first child is cut and the next one of its name stands behind
  another first child. The `sibling` chain is then out of order; if the cut tag was `parent->child`, the next one of
  its name is missing from the chain and `ezxml_child` no longer finds it, and otherwise every name is still found.
  `XmlCut.Cut` has both conditions, `XmlBroken.CutApart` a run: children a, b, a, the first one cut.
- `ezxml_decode` (packages/ezXML/ezxml.c:170-175) reads on behind the terminator exactly when the text ends in a
  carriage return, or in one and a line feed: `PastEnd.LinesPassExactly` and `PastEnd.EndsInReturnMeans`.
- `cJSON_Minify` (packages/cJSON/cJSON.c:741-756) reads on behind the terminator exactly when a literal or a block
  comment does not end: `PastEnd.MinifyPassesExactly`.
- The attribute mode of `ezxml_ampencode` (packages/ezXML/ezxml.c:674-695) does not protect vertical tabs and form
  feeds, which `ezxml_decode` turns into blanks. `XmlEncode.DecodeUndoesEncode` and `XmlRoundTrip.RoundTrip` have the
  condition, `XmlRoundTrip.FeedLost` a tree.
- The products of the delay mixer (function/sound_delay.c:327) stay within 32 bits for volumes up to 32768, not only
  up to 32767, and for no larger one: `SoundDelay.VolumeBound`.
- The doubling of samples (function/mixer.c:835-852) is right for one word more than the offset of its source, and not
  for two: `MixerDouble.DoublingExact`.
- `kfifo_init` (beken378/common/fifo.h:35) lets a size of zero pass; such a queue refuses every byte: `Kfifo.Init`.
- `mixer_mux_acoustics` (function/mixer.c:993-1073): with an odd number of words the last frame is made with what the
  block held before, and the call for the delay reads and writes one word more: `MixerThread.Mixer.Mux`,
  `SoundDelay.DelayLine.MultiPlaying`.

## Left out

- Failing allocation, in every component.
- cJSON: numbers with fractions or exponents are parsed over the reals, the exponent as an unbounded number, and not
  printed; rounding, `%f` and `%e` text and the floating-point tests of `print_number` are not modelled, nor reference
  and constant-key flags, `cJSON_Duplicate`, `cJSON_Delete` and the error pointer.
- JsonReader.ParseWithOpts: texts in which a literal that is read has fewer than four hexadecimal digits behind a
  unicode escape, or a backslash in front of the terminator, are outside its precondition, because there the code
  sizes its buffer wrongly or reads past the terminator.
- JsonMinify.Minify: a text with a literal or a block comment that does not end is outside its precondition, because
  there the code reads on behind the terminator (`PastEnd.MinifyPassesExactly`).
- JsonBuffer.PrintBuffered: the text is at most 2^30 bytes less a little, because beyond that the rounded size does
  not fit the C `int`.
- ezXML: document types with parameter entities, attribute lists and their defaults, processing instructions, the `*`
  and `%` modes of the decoder and memory-mapped files; the parser gives `Outside` for a text with a document type or
  an instruction. Entities and the decoder under them are modelled on their own (`XmlEntities`, `XmlText`,
  `XmlDocument`).
- XmlParser.ParseStr: the text of a tag is decoded by the function that the in-place decoder is proved against;
  terminators written into the buffer and the sharing of the buffer by the tags are not modelled. A text or a value
  that ends in a carriage return gives `Outside`.
- XmlParser.OpenAt: default attributes, which only a document type declares. A name begins as where `char` is
  unsigned; where it is signed the code also opens a tag on a byte above 0x7F, and the model gives an error.
- XmlSpelled.ReadDocument: documents of these spellings are read; of other texts only the errors listed are shown.
- XmlDocument.ParseDocument: a text of nothing but a UTF-16 mark gives `Outside`.
- XmlWriter.ToXml: processing instructions and default attributes are not written.
- XmlText.NormalizeLines: texts that end in a carriage return, or in one and a line feed, are outside its
  precondition, because there the code reads on behind the terminator (`PastEnd.LinesPassExactly`).
- XmlText.Decode: the same texts; and a character reference with a minus sign is read as text, while the code stores
  the low byte of the negative number. The entities are those of a document type that the model accepts.
- XmlCut.Cut: the parent keeps its children in the three chains, as after parsing or after insertions within the
  condition of `XmlIndex.Insert`.
- AudioDac: the DMA reports no half while it is paused; device registers and rates are not modelled.
- AudioSteps.AnyInterleaving: memory is sequentially consistent between the sections.
- MixerThread: the semaphore that answers a message, failing device calls and the path selected by
  `MIXER_MUX_NEW_STRATEGY` 1; what the microphone has to give is a parameter of a turn, and so is what a block holds
  before it is filled.
- MixerThread.Mixer.Turn: halves end at four points of a turn, between its calls, and not within a call on the ring,
  which `AudioSteps` covers; that a full block is sent is said for a ring with room when the turn begins.
- SoundDelay: at most 0x7FFE words in one call, because the counter is 16 bits wide; the values set at the start of
  the program.
- The I2S driver repeats the pauses of the DAC driver; the hardware drivers, the network stack, the shell commands and
  the file system itself are not modelled.
