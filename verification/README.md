# Models and proofs of the management library

A Dafny project about the parts of the NVM management library with the strongest specifications: the XML
library it carries, capacity goals and their handshake with the BIOS, namespace placement, event
notification, and two chunked transfer protocols. Paths below are relative to the repository.

| files | what they model |
|---|---|
| `XmlChars`, `XmlReferences`, `XmlGrammar` | RapidXML's character classes, character references and a reference parser on sequences |
| `XmlValues`, `XmlPieces` | the spellings of numbers and of values, and that the decoder reads just these |
| `XmlSyntax`, `XmlAccepted`, `XmlTexts`, `XmlErrors` | a concrete syntax with its meaning under every option; the parser accepts exactly its texts, passes over what is not kept to just behind its end, and tells what is missing from any other text |
| `XmlPrint`, `XmlSpelling`, `XmlRoundTrip`, `XmlCondense`, `XmlNormalForm` | the printer with indenting off, how it spells, and the theorem that parsing undoes printing exactly on the normal documents |
| `XmlParser`, `XmlReadBack` | the parser that decodes and terminates strings inside the caller's buffer, against the reference parser, and behind the printer |
| `XmlDom`, `XmlClone`, `XmlPool` | the intrusive child lists, cloning and the chunked bump allocator |
| `ConfigGoals`, `ConfigTables` | goal validation and layout in 64-bit words, the byte tables, their encoder and decoder, and the round trip |
| `ConfigFields`, `ConfigLayout`, `ConfigReading` | the tables field by field, the layout read out of the bytes, what is encoded and what is decoded of any bytes |
| `ConfigHandshake`, `ConfigStatus` | the partition and the sequence-number handshake over all runs, and the status of a goal with the error the output tells |
| `Alignment`, `Namespaces` | least common multiples and block-count adjustment; security criteria, App Direct and storage placement |
| `EventMonitor` | the sections of the monitor's mutex, what a poll delivers, and the monitor's own loops |
| `EventThreads`, `EventGuarantees`, `EventStarts`, `EventRuns` | subscriber, poller and storing threads interleaved query by query; exactly which steps deliver twice, lose an event, deliver what is older than the subscription's start, or leave a subscriber without polling; runs that do |
| `FirmwarePackets`, `BiosMailbox` | the firmware packet stream and the BIOS large-payload mailbox |
| `Arithmetic`, `Bytes`, `Options`, `Runs`, `Sequences`, `Words` | shared facts about quotients, little-endian fields, runs, slices and machine words |

Code that changes state step by step is modelled by methods and classes over arrays and fields; each is tied to
a function, and what the library promises is proved about that function. Random choices, drivers, devices,
the event table and the BIOS are parameters: a driver is a function from command numbers to outcomes, a boot
is any new contents the BIOS may leave, a thread schedule is a sequence of steps.

## Where the code falls short

These are proved as stated, each with the exact condition or a concrete run:

- `XmlNormalForm.ComesBackExactly`: printing and parsing keeps just the normal documents; `XmlRoundTrip.DeclarationComesBack`
  shows the case of a declaration without attributes.
- `XmlParser.PiValueSurvives`: a processing instruction's value loses its first character when it directly
  follows the name and strings are terminated.
- `XmlValues.ReferenceRead`: a decimal reference takes the letters A to F for digits too, so `&#A;` is read as a line feed;
  `XmlValues.LargeReference`: numbers count again from 0 at the width of a long.
- `XmlReferences.Utf8DecodesBack`: surrogate code points are encoded although section 3 of RFC 3629 forbids it.
- `ConfigGoals.DoublingWraps`, `ConfigGoals.FootprintsSound`, `ConfigGoals.LayoutSound`: doubling a
  mirrored size wraps, a set behind a mirrored one overlaps its copy, and "all remaining" on the first of two
  sets puts the second beyond the partition.
- `ConfigGoals.AllMemorySound`: beside a memory size of all capacity the encoder counts a gibibyte more than there is.
- `ConfigFields.WordComesBack`: an interleave format word that names an unknown size is read as the size before it.
- `Namespaces.StorageSound`: sizes are multiplied in a word that wraps, so a request of more than 2^64 bytes can be placed
  with a capacity far from it; `Namespaces.WrappedRequestIsPlaced` is such a request.
- `ConfigTables.GoalRoundTrip`: a goal that asks for all remaining capacity, or for a mirrored set of 2^63 gibibytes or
  more, is accepted and written but does not read back as it was given.
- `Namespaces.FallbackMissed`: the smaller storage capacity is tried only if the last known DIMM was too small.
- `ConfigHandshake.HostWritesKeep`, `ConfigHandshake.NextKeepsInv`: host writes copy the length a table gives itself, while
  the reader compares that with the partition's size field for the input table only.
- `EventGuarantees.OnceExactly`, `EventGuarantees.NoneLostExactly`: the queries of one poll do not see one state of the
  event table, because `db_begin_transaction` (monitor.c:1062) opens its transaction on the connection that storing
  threads use too; an event stored in between is delivered twice, or pushes another one out. A failed query for the
  newest id repeats deliveries.
- `EventStarts.LaterExactly`: after a failed query for the newest id subscribers are called for events from before polling
  was started for them.
- `EventGuarantees.CoveredExactly`: the lock is released between finding no subscriber and stopping, and between finding
  polling on and taking a place.
- `FirmwarePackets.StreamReceived`: packet numbers wrap beyond 64 * 2^14 bytes, which no check excludes.
- `BiosMailbox.StrayBytesGoUnnoticed`: the read loop overwrites the error of a failed input-set call.

## Model

| member | source | states |
|---|---|---|
| `XmlReferences.Utf8DecodesBack` | external/rapidxml-1.13/rapidxml.hpp:1511-1554 | The bytes left for a code below 0x110000 are decoded back to it by the rules of sections 3 and 4 of RFC 3629 exactly when it is no surrogate; surrogates are encoded all the same and never decode |
| `XmlReferences.InsertCodedCharacter` | external/rapidxml-1.13/rapidxml.hpp:1511-1554 | Writes exactly the coded bytes at the write position and nothing else; codes beyond Unicode are an error that writes nothing |
| `XmlReferences.NumericReference` | external/rapidxml-1.13/rapidxml.hpp:1649-1683 | A numeric reference never emits more characters than stand before its semicolon |
| `XmlReferences.Unit` | external/rapidxml-1.13/rapidxml.hpp:1587-1712 | One decoding step always moves on and never emits more than it reads |
| `XmlReferences.Expand` | external/rapidxml-1.13/rapidxml.hpp:1570-1718 | Decoding stops at the first character outside the class, inside the buffer, and never yields more characters than it read |
| `XmlReferences.ExpandIsSkip` | external/rapidxml-1.13/rapidxml.hpp:1572-1579 | With nothing to translate or condense, decoding is a plain skip that leaves the text as it is |
| `XmlReferences.SkipInPlace` | external/rapidxml-1.13/rapidxml.hpp:1557-1563 | Stops at the first character outside the class |
| `XmlReferences.ScanDigitsInPlace` | external/rapidxml-1.13/rapidxml.hpp:1653-1662 | The digit loop computes the value of the digits, wrapped to the width unsigned long has on the platform |
| `XmlReferences.ReferenceInPlace` | external/rapidxml-1.13/rapidxml.hpp:1649-1683 | One numeric reference decoded in place: the pure decoder's characters or error, unread text untouched |
| `XmlReferences.Replace` | external/rapidxml-1.13/rapidxml.hpp:1598-1647 | A predefined entity becomes its character in place |
| `XmlReferences.CondenseInPlace` | external/rapidxml-1.13/rapidxml.hpp:1694-1707 | A whitespace run becomes one space in place |
| `XmlReferences.UnitInPlace` | external/rapidxml-1.13/rapidxml.hpp:1587-1712 | Each round of the translation loop does what the pure step says and leaves the unread text alone |
| `XmlReferences.PureRunIsCopied` | external/rapidxml-1.13/rapidxml.hpp:1581-1583 | Skipping a run of characters that need no processing is the same as decoding it |
| `XmlReferences.SkipAndExpandCharacterRefs` | external/rapidxml-1.13/rapidxml.hpp:1570-1718 | In-place decoding refines the pure decoder: same characters at the start of the value, same end or error, nothing before the value or from the stop position on changes |
| `XmlReferences.EscapeNeverEnds` | external/rapidxml-1.13/rapidxml_print.hpp:47-81 | Escaped text never holds the character that would end it, for data and for values in either quote |
| `XmlReferences.EscapedUnit` | external/rapidxml-1.13/rapidxml_print.hpp:47-81 | What is written for one character is decoded back by one step |
| `XmlReferences.ExpandEscape` | external/rapidxml-1.13/rapidxml.hpp:1570-1718 | Decoding undoes escaping for every NUL-free string, whatever follows |
| `XmlValues.DigitIs` | external/rapidxml-1.13/rapidxml.hpp:1653-1662 | The decoder gives each digit of either case its value, and takes nothing else for a digit |
| `XmlValues.ScanIsValue` | external/rapidxml-1.13/rapidxml.hpp:1653-1662 | Scanning digits computes the number they stand for in the radix, modulo the width of the platform's unsigned long |
| `XmlValues.ReferenceRead` | external/rapidxml-1.13/rapidxml.hpp:1649-1683 | A reference with any digits, "&#" in decimal and "&#x" in hexadecimal, is read as the number they stand for |
| `XmlValues.SpelledReference` | external/rapidxml-1.13/rapidxml.hpp:1649-1683 | The decimal and the hexadecimal spelling, in either case, of every code of Unicode is decoded: to bytes that RFC 3629 reads as the code if it is no surrogate |
| `XmlValues.LargeReference` | external/rapidxml-1.13/rapidxml.hpp:1649-1683 | Numbers beyond Unicode are refused up to the width of a long and count again from 0 from there on; without UTF-8 the low eight bits are left of any number |
| `XmlPieces.Ampersand` | external/rapidxml-1.13/rapidxml.hpp:1587-1712 | An ampersand is taken for a reference exactly if one of the five names with a semicolon, or "#", follows within the value |
| `XmlPieces.PiecesRead` | external/rapidxml-1.13/rapidxml.hpp:1570-1718 | A value spelled in characters, named and numeric references and whitespace runs is read as what these mean |
| `XmlPieces.PiecesOf` | external/rapidxml-1.13/rapidxml.hpp:1570-1718 | Whatever value the decoder reads is spelled in such pieces, and means what was read |
| `XmlRoundTrip.QuoteEscapes` | external/rapidxml-1.13/rapidxml_print.hpp:188-200 | The quote chosen around an attribute value and the character left unescaped inside it fit the parser's value class |
| `XmlPrint.CopyChars` | external/rapidxml-1.13/rapidxml_print.hpp:37-43 | Appends the text unchanged |
| `XmlPrint.CopyAndExpandChars` | external/rapidxml-1.13/rapidxml_print.hpp:47-81 | Appends the escaped text |
| `XmlPrint.FindChar` | external/rapidxml-1.13/rapidxml_print.hpp:94-103 | Finds a character if and only if it occurs |
| `XmlPrint.WriteAttribute` | external/rapidxml-1.13/rapidxml_print.hpp:182-203 | Appends an attribute in the quote its value allows |
| `XmlPrint.WriteAttributes` | external/rapidxml-1.13/rapidxml_print.hpp:178-204 | Appends the attributes in order |
| `XmlPrint.WriteNode` | external/rapidxml-1.13/rapidxml_print.hpp:107-165 | Appends the text of any node, indenting off |
| `XmlPrint.WriteChildren` | external/rapidxml-1.13/rapidxml_print.hpp:169-174 | Appends the children in order |
| `XmlPrint.WriteInner` | external/rapidxml-1.13/rapidxml_print.hpp:262-286 | Appends what stands between the tags: the value, a single data child, or all children |
| `XmlPrint.WriteElement` | external/rapidxml-1.13/rapidxml_print.hpp:242-294 | Appends an element, closed at once when it has neither value nor children |
| `XmlSpelling.EscapeHides` | external/rapidxml-1.13/rapidxml_print.hpp:47-81 | Escaped text holds none of the brackets and quotes but the one to be kept, and an ampersand exactly if something had to be escaped |
| `XmlSpelling.EscapeKeeps` | external/rapidxml-1.13/rapidxml_print.hpp:47-81 | What needs no escape stays as it is |
| `XmlSpelling.QuotesOf` | external/rapidxml-1.13/rapidxml_print.hpp:188-200 | The quote around an attribute value is double unless the value holds one; double quotes are then never escaped, and single ones exactly in values that hold both |
| `XmlSpelling.ClosedAtOnce` | external/rapidxml-1.13/rapidxml_print.hpp:255-261 | An element is closed at once exactly if it has neither value nor children |
| `XmlSpelling.ElementTags` | external/rapidxml-1.13/rapidxml_print.hpp:242-294 | The spelling of an element with an attribute and a text that need no escapes |
| `XmlSpelling.DeclarationTag` | external/rapidxml-1.13/rapidxml_print.hpp:298-310 | The spelling of a declaration with an attribute that needs no escapes |
| `XmlGrammar.FindClose` | external/rapidxml-1.13/rapidxml.hpp:1779-1784 | The first closing mark, before any NUL, or an error at the NUL |
| `XmlGrammar.ParseNode` | external/rapidxml-1.13/rapidxml.hpp:2080-2163 | Every node ends inside the buffer and after its start |
| `XmlGrammar.ParseContents` | external/rapidxml-1.13/rapidxml.hpp:2166-2233 | Contents end inside the buffer, after their start, or are an error |
| `XmlSpelling.ClassesAre` | external/rapidxml-1.13/rapidxml.hpp:2306-2535 | What each character class of the parser leaves out |
| `XmlSyntax.AttributesRead` | external/rapidxml-1.13/rapidxml.hpp:2236-2298 | A spelled list of attributes is read in order, up to a character that starts no other |
| `XmlSyntax.DataRead` | external/rapidxml-1.13/rapidxml.hpp:1939-1994 | A spelled data run becomes a data child and, for an element without one, the value, as the options say |
| `XmlSyntax.TagRead` | external/rapidxml-1.13/rapidxml.hpp:2189-2212 | A closing tag ends the element if its name is the element's or names are not compared |
| `XmlSyntax.ItemsRead` | external/rapidxml-1.13/rapidxml.hpp:2166-2233 | Spelled contents are read item by item, up to just behind the closing tag |
| `XmlSyntax.ElementRead` | external/rapidxml-1.13/rapidxml.hpp:2036-2077 | A spelled element is read whole, whatever its contents |
| `XmlSyntax.CommentRead` | external/rapidxml-1.13/rapidxml.hpp:1772-1809 | A comment, kept or not, ends just behind its first "-->" |
| `XmlSyntax.CdataRead` | external/rapidxml-1.13/rapidxml.hpp:1997-2033 | A CDATA section, kept or not, ends just behind its first "]]>" |
| `XmlSyntax.DoctypeRead` | external/rapidxml-1.13/rapidxml.hpp:1813-1876 | A document type, kept or not, ends just behind the first ">" outside brackets |
| `XmlSyntax.DeclarationRead` | external/rapidxml-1.13/rapidxml.hpp:1737-1769 | A kept declaration is read with its attributes |
| `XmlSyntax.SkippedDeclarationRead` | external/rapidxml-1.13/rapidxml.hpp:1739-1750 | A declaration that is not kept ends just behind its first "?>" |
| `XmlSyntax.PiRead` | external/rapidxml-1.13/rapidxml.hpp:1879-1933 | A kept instruction is read with its target and its text |
| `XmlSyntax.SkippedPiRead` | external/rapidxml-1.13/rapidxml.hpp:1916-1928 | An instruction that is not kept ends just behind its first "?>" |
| `XmlSyntax.OtherRead` | external/rapidxml-1.13/rapidxml.hpp:2151-2160 | Any other "<!" ends just behind its first ">" |
| `XmlSyntax.NodeRead` | external/rapidxml-1.13/rapidxml.hpp:2080-2163 | A spelled node is read as what it means under the options, up to its end, at any place in any text |
| `XmlAccepted.AttributesOf` | external/rapidxml-1.13/rapidxml.hpp:2236-2298 | Whatever attributes are read are spelled there |
| `XmlAccepted.ContentsOf` | external/rapidxml-1.13/rapidxml.hpp:2166-2233 | Whatever contents are read are spelled there, closing tag included |
| `XmlAccepted.ElementOf` | external/rapidxml-1.13/rapidxml.hpp:2036-2077 | Whatever element is read is spelled there |
| `XmlAccepted.NodeOf` | external/rapidxml-1.13/rapidxml.hpp:2080-2163 | Whatever node is read or passed over is spelled there, and means what it was read as |
| `XmlTexts.NodeAcceptedExactly` | external/rapidxml-1.13/rapidxml.hpp:2080-2163 | At any place a node is accepted, with this meaning and end, exactly if it is spelled there |
| `XmlTexts.AcceptedExactly` | external/rapidxml-1.13/rapidxml.hpp:1380-1410 | Every text is accepted, with this meaning and end, exactly if it spells a document of the concrete syntax up to its first NUL: byte order mark or none, nodes with blanks before them, and blanks |
| `XmlTexts.PassedOver` | external/rapidxml-1.13/rapidxml.hpp:2166-2233 | A construct that is not kept is passed over to just behind its end, in contents and between nodes |
| `XmlTexts.EachPassedOver` | external/rapidxml-1.13/rapidxml.hpp:1785-1788 | With comments off reading goes on 7 characters and the text behind a "<!--"; likewise for CDATA sections, document types, instructions and declarations |
| `XmlTexts.InvalidExactly` | external/rapidxml-1.13/rapidxml.hpp:2193-2198 | A closing tag is invalid exactly if names are compared and the one read is not the element's |
| `XmlErrors.ParseTells` | external/rapidxml-1.13/rapidxml.hpp:2080-2298 | Every error tells what is missing: at the place reported something else stands, or the text ends |
| `XmlRoundTrip.FindPrintedClose` | external/rapidxml-1.13/rapidxml.hpp:1779-1784 | The closing mark found is the printed one when the text holds none |
| `XmlRoundTrip.DoctypeEndPrinted` | external/rapidxml-1.13/rapidxml.hpp:1820-1854 | A document type with balanced brackets ends where it was printed to end |
| `XmlRoundTrip.ParsePrintedAttribute` | external/rapidxml-1.13/rapidxml.hpp:2236-2298 | A printed attribute is read back |
| `XmlRoundTrip.ParsePrintedAttributes` | external/rapidxml-1.13/rapidxml.hpp:2236-2298 | A printed attribute list is read back in order |
| `XmlRoundTrip.AbsorbAll` | external/rapidxml-1.13/rapidxml.hpp:1939-1994 | Reading children in one by one leaves them in order, with the first data text as the element's value |
| `XmlCondense.CondenseStays` | external/rapidxml-1.13/rapidxml.hpp:1694-1707 | Condensing leaves just the text whose whitespace is single spaces as it is |
| `XmlCondense.ExpandCondenses` | external/rapidxml-1.13/rapidxml.hpp:1694-1707 | Decoding escaped text while whitespace is normalized condenses it, whatever markup follows |
| `XmlRoundTrip.ParsePrintedData` | external/rapidxml-1.13/rapidxml.hpp:1939-1994 | A printed data run is read back as one data child, condensed when whitespace is normalized |
| `XmlRoundTrip.ParsePrintedClosing` | external/rapidxml-1.13/rapidxml.hpp:2189-2212 | A printed closing tag passes the name check |
| `XmlRoundTrip.ParsePrintedChildren` | external/rapidxml-1.13/rapidxml.hpp:2166-2233 | Printed children are read back in order up to the closing tag |
| `XmlRoundTrip.ParsePrintedElement` | external/rapidxml-1.13/rapidxml.hpp:2036-2077 | A printed element is read back whole |
| `XmlRoundTrip.ParsePrintedNode` | external/rapidxml-1.13/rapidxml.hpp:2080-2163 | Any printed node but data is read back |
| `XmlRoundTrip.ParsePrintedCdata` | external/rapidxml-1.13/rapidxml.hpp:1997-2033 | A printed CDATA section is read back |
| `XmlRoundTrip.ParsePrintedComment` | external/rapidxml-1.13/rapidxml.hpp:1772-1809 | A printed comment is read back |
| `XmlRoundTrip.ParsePrintedDoctype` | external/rapidxml-1.13/rapidxml.hpp:1813-1876 | A printed document type is read back |
| `XmlRoundTrip.ParsePrintedDeclaration` | external/rapidxml-1.13/rapidxml.hpp:1737-1769 | A printed declaration with attributes is read back |
| `XmlRoundTrip.ParsePrintedPi` | external/rapidxml-1.13/rapidxml.hpp:1879-1933 | A printed processing instruction is read back |
| `XmlRoundTrip.ParsePrint` | external/rapidxml-1.13/rapidxml.hpp:1380-1410 | For every normal document, parsing what was printed gives the document back, under every option that keeps data and translates references, whitespace normalized or not |
| `XmlRoundTrip.DeclarationComesBack` | external/rapidxml-1.13/rapidxml.hpp:2092-2109 | With declarations kept and references translated, a printed declaration with proper attributes is read back, at any place in a text, exactly if it has an attribute |
| `XmlRoundTrip.EmptyDeclarationAsPi` | external/rapidxml-1.13/rapidxml.hpp:2092-2109 | Without attributes it is read as a processing instruction called "xml", or skipped |
| `XmlRoundTrip.EmptyDeclarationIsLost` | external/rapidxml-1.13/rapidxml.hpp:2092-2109 | So a document of just that does not come back |
| `XmlNormalForm.NodeIsParsed` | external/rapidxml-1.13/rapidxml.hpp:2080-2163 | Whatever the text, the parser returns only nodes of the parsed form: proper names, no closing mark inside, an element's value the first lasting data text of its children |
| `XmlNormalForm.ContentsAreParsed` | external/rapidxml-1.13/rapidxml.hpp:2166-2233 | Contents are of that form, skipped nodes and data runs included |
| `XmlNormalForm.StuckData` | external/rapidxml-1.13/rapidxml.hpp:1939-1994 | A printed data text that holds a NUL makes reading fail |
| `XmlNormalForm.BlankData` | external/rapidxml-1.13/rapidxml.hpp:2175-2187 | A printed data text of whitespace before markup is passed over |
| `XmlNormalForm.ReadChildren` | external/rapidxml-1.13/rapidxml.hpp:2166-2233 | Reading printed children of the parsed form ends at the printed end if it succeeds, adds no more children than were printed, and adds just these only if they are normal and no two data texts stand side by side |
| `XmlNormalForm.ReadNode` | external/rapidxml-1.13/rapidxml.hpp:2080-2163 | Reading a printed node of the parsed form ends at its printed end if it succeeds, and gives it back only if it is normal |
| `XmlNormalForm.ComesBackExactly` | external/rapidxml-1.13/rapidxml.hpp:1380-1410 | Under every option that keeps data and translates references, whitespace normalized or not, any tree whatever comes back from its printed text exactly if it is a normal document |
| `XmlReadBack.PrintThenParse` | external/rapidxml-1.13/rapidxml_print.hpp:388-391 | A normal document printed into a buffer and parsed there is left as a tree of spans that reads as the document |
| `XmlParser.NodeFrame` | external/rapidxml-1.13/rapidxml.hpp:1985-1993 | Writing a terminator outside a tree's region leaves every recorded span as it reads |
| `XmlParser.ParseAttributeName` | external/rapidxml-1.13/rapidxml.hpp:2242-2264 | Reads an attribute name up to its quote; the terminator lands behind the name |
| `XmlParser.ParseAttributeValue` | external/rapidxml-1.13/rapidxml.hpp:2266-2293 | Decodes and terminates an attribute value |
| `XmlParser.ParseNodeAttributes` | external/rapidxml-1.13/rapidxml.hpp:2236-2298 | The attribute spans read as the reference attributes in the final buffer |
| `XmlParser.ParseXmlDeclaration` | external/rapidxml-1.13/rapidxml.hpp:1737-1769 | A declaration in place |
| `XmlParser.ParseComment` | external/rapidxml-1.13/rapidxml.hpp:1772-1809 | A comment in place |
| `XmlParser.ParseCdata` | external/rapidxml-1.13/rapidxml.hpp:1997-2033 | A CDATA section in place |
| `XmlParser.SkipDoctype` | external/rapidxml-1.13/rapidxml.hpp:1820-1854 | The bracket loop ends at the closing mark of the reference, or with its error, inside the buffer |
| `XmlParser.ParseDoctypeInPlace` | external/rapidxml-1.13/rapidxml.hpp:1813-1876 | A document type in place |
| `XmlParser.ParsePiInPlace` | external/rapidxml-1.13/rapidxml.hpp:1879-1933 | A processing instruction in place, including what its name's terminator does to its value |
| `XmlParser.PiValueSurvives` | external/rapidxml-1.13/rapidxml.hpp:1888-1920 | The value of a terminated processing instruction is intact exactly when whitespace follows its name or it is empty |
| `XmlParser.PiLosesFirstCharacter` | external/rapidxml-1.13/rapidxml.hpp:1888-1920 | "a/b?>" is such an instruction: its value "/b" is left as a NUL and "b" |
| `XmlParser.ParseAndAppendData` | external/rapidxml-1.13/rapidxml.hpp:1939-1994 | A data run in place: the data child, the element's value, and the character the terminator overwrote |
| `XmlParser.SkipUnrecognized` | external/rapidxml-1.13/rapidxml.hpp:2151-2160 | An unknown "<!" construct is skipped to its end |
| `XmlParser.ParseNodeInPlace` | external/rapidxml-1.13/rapidxml.hpp:2080-2163 | Any node in place, with the reference parser's outcome |
| `XmlParser.ParseElementInPlace` | external/rapidxml-1.13/rapidxml.hpp:2036-2077 | An element in place; its name is terminated last |
| `XmlParser.ParseContentsInPlace` | external/rapidxml-1.13/rapidxml.hpp:2166-2233 | Contents in place: terminators never touch unread text or recorded spans |
| `XmlParser.ParseClosingInPlace` | external/rapidxml-1.13/rapidxml.hpp:2189-2212 | The closing tag compares against the name in the buffer, not yet terminated |
| `XmlParser.Compare` | external/rapidxml-1.13/rapidxml.hpp:320-335 | Exact comparison: equal sizes and characters |
| `XmlParser.Parse` | external/rapidxml-1.13/rapidxml.hpp:1380-1410 | On every NUL-terminated buffer the parser ends, reads nothing past the NUL, and yields the reference outcome on the original text: the same error, or a tree that reads as the reference tree in the final buffer, each string ended by a NUL at its recorded size when terminated; the non-destructive modes leave the buffer unchanged |
| `XmlDom.XmlNode.PrependNode` | external/rapidxml-1.13/rapidxml.hpp:1076-1092 | The child comes first; all chains and parents stay sound |
| `XmlDom.XmlNode.AppendNode` | external/rapidxml-1.13/rapidxml.hpp:1097-1113 | The child comes last; all chains and parents stay sound |
| `XmlDom.XmlNode.InsertNode` | external/rapidxml-1.13/rapidxml.hpp:1119-1136 | The child comes before the given one, or last; all chains and parents stay sound |
| `XmlDom.XmlNode.RemoveFirstNode` | external/rapidxml-1.13/rapidxml.hpp:1140-1151 | The first child leaves and has no parent; all chains and parents stay sound |
| `XmlDom.XmlNode.RemoveLastNode` | external/rapidxml-1.13/rapidxml.hpp:1155-1167 | The last child leaves and has no parent; all chains and parents stay sound |
| `XmlDom.XmlNode.RemoveNode` | external/rapidxml-1.13/rapidxml.hpp:1171-1185 | The given child leaves and has no parent; all chains and parents stay sound |
| `XmlDom.XmlNode.RemoveAllNodes` | external/rapidxml-1.13/rapidxml.hpp:1188-1193 | No child is left, each former child has no parent; all chains and parents stay sound |
| `XmlDom.XmlNode.ChainedAfterInsert` | external/rapidxml-1.13/rapidxml.hpp:1127-1134 | Relinking one place makes a two-way chain again |
| `XmlDom.ForestKept` | external/rapidxml-1.13/rapidxml.hpp:1328-1345 | Changing one node's chain, with the parents of what joined and left, keeps every other chain |
| `XmlClone.CloneNode` | external/rapidxml-1.13/rapidxml.hpp:496-520 | A clone is made of fresh nodes only, forms a sound tree, and has the shape, names, values and attributes of the source at every depth; nothing that was there before changes |
| `XmlClone.CloneInto` | external/rapidxml-1.13/rapidxml.hpp:496-520 | A clone put into a node that is already there, of another tree: its former children have no parent, it keeps its place, and nothing else of its tree changes |
| `XmlPool.Layout.Align` | external/rapidxml-1.13/rapidxml.hpp:573-577 | The least aligned address at or above a pointer |
| `XmlPool.Layout.PushBlock` | external/rapidxml-1.13/rapidxml.hpp:599-631 | A block cut from the free space is aligned, inside its live chunk and apart from all earlier blocks |
| `XmlPool.Layout.PushChunk` | external/rapidxml-1.13/rapidxml.hpp:608-622 | A new chunk with its header keeps the chain of chunks |
| `XmlPool.Layout.StoreKeepsHeaders` | external/rapidxml-1.13/rapidxml.hpp:560-564 | Whatever callers store in their blocks, every chunk header keeps naming the chunk before |
| `XmlPool.MemoryPool.Init` | external/rapidxml-1.13/rapidxml.hpp:566-571 | Back to the empty static chunk |
| `XmlPool.MemoryPool.Grow` | external/rapidxml-1.13/rapidxml.hpp:606-626 | After growth the slack for two alignments always suffices, and a new chunk has room for the least chunk size |
| `XmlPool.MemoryPool.AllocateAligned` | external/rapidxml-1.13/rapidxml.hpp:599-631 | Every allocation keeps all blocks aligned, disjoint and inside live chunks, and skips no more than alignment needs |
| `XmlPool.MemoryPool.Clear` | external/rapidxml-1.13/rapidxml.hpp:525-537 | Frees every dynamic chunk exactly once, newest first, and never the static one |
| `EventMonitor.MaxId` | src/lib/monitor.c:1003-1014 | The greatest stored id, 0 for an empty table |
| `EventMonitor.CallsAre` | src/lib/monitor.c:1090-1101 | An event is passed to exactly the places that want it |
| `EventMonitor.DeliveriesAre` | src/lib/monitor.c:1086-1103 | A poll calls exactly the live subscribers that want a stored event above the watermark |
| `EventMonitor.DeliveriesNoRepeats` | src/lib/monitor.c:1086-1103 | One poll calls each subscriber at most once for each event |
| `EventMonitor.NewestFirst` | src/lib/monitor.c:1086-1103 | Over rows that come newest first a poll calls for newer events before older ones, and for one event in the order of the places |
| `EventThreads.NextKeepsInv` | src/lib/monitor.c:776-1119 | Every step of any thread, each query of a poll being a step of its own, and every event stored or purged in between keeps the invariant |
| `EventThreads.SectionKeepsInv` | src/lib/monitor.c:776-951 | The subscribing and removing sections keep it |
| `EventThreads.BeginKeepsInv` | src/lib/monitor.c:1059-1064 | Taking the mutex and reading the newest id keeps it |
| `EventThreads.QueryKeepsInv` | src/common/persistence/event.c:902-997 | Each of the four queries for the events keeps it, failed or not |
| `EventThreads.EndKeepsInv` | src/lib/monitor.c:1083-1116 | Ending a round with any stored events keeps it |
| `EventThreads.OnlyWanted` | src/lib/monitor.c:1094-1099 | Over all interleavings, failed queries included, a registration is called only for events of the type it asked for |
| `EventGuarantees.FailedQueryExposes` | src/lib/monitor.c:1003-1014 | The newest id reads below a delivered event exactly when its query fails and a live subscriber was delivered an event that is still stored |
| `EventGuarantees.EndOnce` | src/lib/monitor.c:1083-1105 | A round that delivers keeps that nothing is called twice, or about to be, exactly if no delivered event is newer than the newest id it had read |
| `EventGuarantees.OnceExactly` | src/lib/monitor.c:776-1119 | A step keeps that exactly if it is neither of two: a failed query for the newest id with something delivered still stored, or a delivery above the newest id read |
| `EventGuarantees.OnceAlways` | src/lib/monitor.c:776-1119 | Over all runs it holds at every point exactly if no step is one of the two |
| `EventGuarantees.NoneLostExactly` | src/lib/monitor.c:1083-1105 | A step keeps that every stored event up to the watermark was delivered to everyone it is owed to exactly if it does not move the watermark past an owed event missing from its rows |
| `EventGuarantees.NoneLostAlways` | src/lib/monitor.c:1083-1105 | Over all runs no event is lost at any point exactly if no step is that |
| `EventGuarantees.CalmKept` | src/common/persistence/event.c:902-997 | While nothing is stored during a poll, its counts keep covering the table and its newest id every event |
| `EventGuarantees.OnceWhenCalm` | src/lib/monitor.c:1059-1116 | Over runs in which nothing is stored during a poll, nothing is called twice, or about to be, at any point exactly if the newest id is never lost to a failed query while a live subscriber was delivered a still stored event |
| `EventGuarantees.AtMostOnce` | src/lib/monitor.c:1083-1114 | Over such runs in which every poll can read the newest id, each event reaches a registration at most once, and what was delivered to a live subscriber and is still stored lies at or below the watermark |
| `EventGuarantees.NothingLost` | src/lib/monitor.c:1083-1105 | Over such runs, whatever queries fail, no owed event is lost |
| `EventGuarantees.PollCatchesUp` | src/lib/monitor.c:1059-1105 | Over such runs, after a poll that delivers, every stored event newer than a live subscription that wants it has been delivered to it |
| `EventGuarantees.UndisturbedPoll` | src/lib/monitor.c:1057-1119 | A round nobody disturbs delivers every stored event above the watermark and moves it to the newest id |
| `EventGuarantees.ExposedRepeats` | src/lib/monitor.c:1083-1105 | From any reachable state with newer events the next undisturbed round repeats a call exactly if a delivered event lies above the watermark |
| `EventGuarantees.CoveredExactly` | src/lib/monitor.c:845-951 | A step keeps that polling is on while someone is subscribed exactly if it is neither a stop while a place is taken nor a place taken with polling off |
| `EventGuarantees.CoveredAlways` | src/lib/monitor.c:845-951 | Over all runs polling covers all subscribers at every point exactly if no step is one of the two |
| `EventGuarantees.InitWipes` | src/lib/monitor.c:776-817 | A new subscription wipes a live one exactly if someone is subscribed and polling is off |
| `EventStarts.StartsAbove` | src/lib/monitor.c:786-804 | Starting to poll leaves every stored event at or below the watermark exactly if the query for the newest id succeeds or nothing is stored |
| `EventStarts.LaterExactly` | src/lib/monitor.c:776-817 | A step keeps that nobody was called, or is about to be, for an event from before polling was started for it exactly if no failed query for the newest id meets such an event |
| `EventStarts.LaterAlways` | src/lib/monitor.c:776-817 | Over all runs, purges included, that holds at every point exactly if no step is such a query |
| `EventStarts.OnlyLater` | src/lib/monitor.c:1083-1105 | With every query for the newest id answered, each call is for an event given out after polling was started for the subscriber called |
| `EventGuarantees.PollerExists` | src/lib/monitor.c:776-840 | In every reachable state in which polling is on, some thread polls or is about to start one that does |
| `EventRuns.StoredDuringPollRepeats` | src/lib/monitor.c:1063-1075 | A run without failed queries in which an event stored after the newest id was read and before the events are counted is delivered twice |
| `EventRuns.StoredBeforeRowsLoses` | src/common/persistence/event.c:913-927 | A run without failed queries in which an event stored between the last count and the rows pushes the oldest event out of the rows, so that it is passed over undelivered |
| `EventRuns.FailedQueryRepeats` | src/lib/monitor.c:1003-1014 | A run in which nothing is stored during a poll and a failed query for the newest id makes the log repeat a delivery |
| `EventRuns.StopLosesASubscriber` | src/lib/monitor.c:927-946 | A run in which a stop leaves a subscriber without polling |
| `EventRuns.LateSubscriberIsLost` | src/lib/monitor.c:860-880 | A run in which a subscription after the stop, by a thread that had found polling on, is left without polling |
| `EventMonitor.PollingIffSubscribed` | src/lib/monitor.c:845-951 | With whole calls atomic, polling is on exactly while someone is subscribed |
| `EventMonitor.Monitor.InitEventNotify` | src/lib/monitor.c:776-817 | The start section on the monitor's own variables |
| `EventMonitor.Monitor.RemoveEventNotify` | src/lib/monitor.c:822-840 | The stop section |
| `EventMonitor.Monitor.Occupy` | src/lib/monitor.c:867-880 | Fills the first free place and reports it, or changes nothing |
| `EventMonitor.Monitor.Vacate` | src/lib/monitor.c:927-941 | Empties a place and reports whether anyone listens |
| `EventMonitor.Monitor.AddEventNotify` | src/lib/monitor.c:845-898 | A whole subscription; the id handed back is the place filled |
| `EventMonitor.Monitor.RemoveSubscriber` | src/lib/monitor.c:904-951 | A whole removal; ids out of range are refused and change nothing |
| `EventMonitor.Monitor.CallSubscribers` | src/lib/monitor.c:1090-1101 | The subscriber loop makes the specified calls in order |
| `EventMonitor.Monitor.CopyEvents` | src/common/persistence/event.c:941-975 | Copies the rows, or refuses those beyond the array |
| `EventMonitor.Monitor.Poll` | src/lib/monitor.c:1059-1118 | For any newest id, count and rows the poller's loops make the specified calls in order and move the watermark as specified |
| `ConfigGoals.UsableCapacity` | src/lib/utility.h:78-79 | The whole gibibytes of a capacity |
| `ConfigGoals.ValidateInterleaveSetSize` | src/lib/config_goal.c:151-190 | Accepts or refuses a set and updates the remaining capacity, in wrapping 64-bit arithmetic |
| `ConfigGoals.ChargeIsExact` | src/lib/config_goal.c:151-190 | The validation accepts exactly the sets that fit, unless the doubling of a mirrored size wraps |
| `ConfigGoals.DoublingWraps` | src/lib/config_goal.c:161-166 | From 2^63 gibibytes on a mirrored set never fits, and is accepted exactly when its wrapped size does |
| `ConfigGoals.SizeSurvives` | src/lib/config_goal.c:455-456 | A size written in bytes reads back exactly when its bytes fit a word |
| `ConfigGoals.ValidateConfigGoalSize` | src/lib/config_goal.c:195-229 | Accepts exactly the goals whose memory and sets can be charged one after the other |
| `ConfigGoals.MemoryAndPartition` | src/lib/config_goal.c:382-405 | Memory and partition share the usable capacity exactly |
| `ConfigGoals.LayoutSound` | src/lib/config_goal.c:504-540 | For an accepted unmirrored goal with explicit memory no size wraps, and the ranges start at 0, are contiguous and end inside the partition exactly when the first of two sets does not ask for all (or the partition is the largest there is) |
| `ConfigGoals.AllFillsPartition` | src/lib/config_goal.c:122-145 | With the flag on the last set the ranges fill the partition to its end |
| `ConfigGoals.ChargedFootprint` | src/lib/config_goal.c:151-190 | An accepted set is charged just the bytes it takes, its range doubled when mirrored, even where its size in bytes wraps |
| `ConfigGoals.FootprintsSound` | src/lib/config_goal.c:504-540 | For every accepted goal with explicit memory, mirrored or not, the ranges doubled when mirrored start at 0, are contiguous and end inside the partition exactly if no second set follows a mirrored one or one that asks for all, two wrapping sizes aside |
| `ConfigGoals.MirroredFirstSetOverlaps` | src/lib/config_goal.c:529-534 | The second set of an accepted goal starts inside the first one's bytes exactly if the first is mirrored with an explicit size other than 2^63 |
| `ConfigGoals.AllMemoryLeaves` | src/lib/config_goal.c:382-405 | All capacity as memory leaves no partition, yet a gibibyte more than the usable capacity is counted as left for the sets |
| `ConfigGoals.AllMemorySound` | src/lib/config_goal.c:382-473 | With all capacity as memory an accepted goal is laid out soundly exactly if its last set takes nothing, and a set before it is mirrored with just 2^63 gibibytes |
| `ConfigTables.FormatRoundTrip` | src/lib/utility.h:169-322 | Decoding a format word gives the interleave format back |
| `ConfigFields.SizeCode` | src/lib/utility.h:169-322 | An interleave size is coded as its multiple of 64 bytes, at most 128 |
| `ConfigFields.WaysCode` | src/lib/utility.h:125-165 | The k-th number of DIMMs a set can be interleaved over is coded as bit k |
| `ConfigFields.FormatWordIs` | src/lib/utility.h:229-322 | Channel size in bits 7:0, controller size in 15:8, ways in 24:16, recommended in 31, and zero between |
| `ConfigFields.WordComesBack` | src/lib/utility.h:169-322 | A word read into a format and written again is the same exactly if it names two sizes, a number of ways or none, and nothing else |
| `ConfigTables.PartitionReads` | src/lib/platform_config_data.h:109-130 | The fields of a partition table read back |
| `ConfigTables.HeaderReads` | src/lib/platform_config_data.h:167-201 | The fields of an interleave table read back |
| `ConfigTables.DimmInfoReads` | src/lib/platform_config_data.h:137-145 | The fields of a DIMM entry read back |
| `ConfigFields.EntryBegins` | src/lib/platform_config_data.h:137-145 | A DIMM entry begins with manufacturer, serial number and model, then six zero bytes |
| `ConfigLayout.EntriesWritten` | src/lib/config_goal.c:413-473 | Every DIMM entry of a set of an encoded goal names its DIMM and carries the set's offset and size, and its table the mirroring |
| `ConfigLayout.LayoutWritten` | src/lib/config_goal.c:456 | With an explicit memory size the offsets and sizes read out of the bytes of any accepted goal are a sound layout exactly if no second set follows a mirrored one or one that asks for all that remains, two wrapping sizes aside |
| `ConfigLayout.AllMemoryWritten` | src/lib/config_goal.c:413-473 | With all capacity as memory they are exactly if nothing is left to take |
| `ConfigLayout.EncodedExactly` | src/lib/config_goal.c:413-473 | A goal is encoded exactly if every DIMM its sets are interleaved over is known and manageable |
| `ConfigTables.FindBoth` | src/lib/device_utilities.c:221-255 | With distinct devices the lookups by guid and by identity find the same device |
| `ConfigTables.DimmsBack` | src/lib/config_goal.c:921-956 | DIMM entries come back in order, with the size of the entry of the DIMM asked for |
| `ConfigTables.InterleaveBack` | src/lib/config_goal.c:881-957 | An interleave table comes back as its set, in the first empty place |
| `ConfigTables.MemoryBack` | src/lib/config_goal.c:859-879 | The partition table gives back the memory size: floor(U/G) - floor((U - mG)/G) = m |
| `ConfigTables.AcceptedFit` | src/lib/config_goal.c:195-229 | An accepted size fits a word in bytes exactly if it is explicit and its doubling did not wrap |
| `ConfigTables.TablesFit` | src/lib/config_goal.c:836-972 | Whatever tables are decoded, the sizes of the goal's sets fit a word in bytes |
| `ConfigTables.GoalRoundTrip` | src/lib/config_goal.c:836-972 | Decoding the encoded tables of any accepted goal whose sets list the DIMM recovers memory size, set count, ids, sizes, formats, mirroring and DIMM order exactly if its sizes fit a word in bytes, from a buffer with any header before and any bytes behind them |
| `ConfigTables.EncodeInterleaveTable` | src/lib/config_goal.c:413-473 | Fills the interleave table; fails exactly when a DIMM is unknown or not manageable |
| `ConfigTables.EncodeInterleaveTables` | src/lib/config_goal.c:493-540 | The interleave tables of both sets with the sizes and offsets the encoder counts out |
| `ConfigTables.EncodeConfigInput` | src/lib/config_goal.c:481-622 | Fills the whole config input table |
| `ConfigTables.DecodeDimms` | src/lib/config_goal.c:921-956 | The DIMM loop |
| `ConfigTables.DecodeInterleave` | src/lib/config_goal.c:881-965 | The interleave branch, refusing a third set and unknown memory types |
| `ConfigTables.DecodePartition` | src/lib/config_goal.c:859-879 | The partition branch |
| `ConfigTables.DecodeConfigGoal` | src/lib/config_goal.c:836-972 | The walk over extension tables, refusing one that runs over the end |
| `ConfigReading.DimmsAre` | src/lib/config_goal.c:921-956 | DIMM entries are read exactly if each starts in the tables, if only at their end, and names a known DIMM; the set then has a size exactly if the last entry of the DIMM asked for gives one |
| `ConfigReading.TableIs` | src/lib/config_goal.c:858-966 | What makes one table readable, and whether it fills a set |
| `ConfigReading.DecodedExactly` | src/lib/config_goal.c:836-972 | Whatever the bytes, they are decoded exactly if tables fill them to the end, each of which can be read, and no App Direct table follows two that give the DIMM asked for a gibibyte or more |
| `ConfigHandshake.GenerateChecksum` | src/lib/platform_config_data.c:72-89 | Puts the checksum of the bytes at its place |
| `ConfigHandshake.SealedSumsToZero` | src/lib/platform_config_data.c:91-111 | A table with its checksum passes the check |
| `ConfigFields.BuiltHeader` | src/lib/platform_config_data.c:476-489 | A built partition begins with the header, field by field, which sums to 0 |
| `ConfigFields.GoalHeader` | src/lib/config_goal.c:557-575 | A written goal begins with the header, field by field, sums to 0, and carries the number after the output's, or 1 without an output |
| `ConfigFields.DamageIsRefused` | src/lib/platform_config_data.c:215-423 | No byte of the goal in a built partition, and none of the other tables but in their lengths, can change without the partition being refused; nor can the signature |
| `ConfigFields.HeaderLength` | src/lib/platform_config_data.c:385-423 | A change in the length of the partition's header is refused exactly if that then is below the header's size or above the partition's |
| `ConfigHandshake.BuildPlatformConfigData` | src/lib/platform_config_data.c:458-578 | Fills the partition: header, the tables one behind the other as long as each says of itself, zeros |
| `ConfigHandshake.CastBuilt` | src/lib/platform_config_data.h:361-401 | Each table reads back exactly as it was put in, whichever of the others are absent |
| `ConfigHandshake.OwnIsProper` | src/lib/platform_config_data.c:332-380 | The bytes an accepted table calls its own pass the reader's checks with agreeing lengths, unless they cut its fixed part |
| `ConfigHandshake.BuiltIsStored` | src/lib/platform_config_data.c:425-452 | A partition built from proper tables is accepted by the reader |
| `ConfigHandshake.CutIsRefused` | src/lib/platform_config_data.c:341-346 | A table cut in its fixed part makes the reader refuse the partition |
| `ConfigHandshake.UpdateConfigGoal` | src/lib/config_goal.c:629-693 | Writes or deletes a goal; the partition stays as it was when encoding fails |
| `ConfigHandshake.GoalWritten` | src/lib/config_goal.c:640-675 | A written goal carries the successor of the output's number; the other tables are then what they call their own, and the partition is accepted again exactly if neither cuts its fixed part |
| `ConfigHandshake.GoalDeleted` | src/lib/config_goal.c:658-675 | Deleting removes the input table; the same holds of the other tables |
| `ConfigHandshake.HostWritesKeep` | src/lib/config_goal.c:662-675 | A host write leaves the current configuration and the output table as they were exactly if both give themselves the size in the partition's header, which after a write they do |
| `ConfigHandshake.NextKeepsInv` | src/lib/config_goal.c:629-693 | Creating, deleting and booting keep the handshake exactly if the step is no host write that cuts a table, or drops an output table that calls itself empty and carries a number |
| `ConfigHandshake.InvAlways` | src/lib/config_goal.c:629-693 | Over all runs the handshake holds at every point exactly if no step is such a write |
| `ConfigHandshake.UnsizedOutputBreaks` | src/lib/platform_config_data.c:463-468 | An accepted partition with a 48-byte output table that calls itself empty: whatever goal is written, the output is gone and the goal's number is neither its number nor the successor |
| `ConfigHandshake.NewExactlySinceBoot` | src/lib/config_goal.c:796-830 | Over all runs without such a write the status is NEW exactly when a goal was written since the last boot, the diagnostic agrees, and the pending number is the output's or its successor modulo 2^32 |
| `ConfigHandshake.NewWhenLengthsAgree` | src/lib/config_goal.c:796-830 | So it is whenever the lengths agree in the partitions the DIMM starts with and the BIOS leaves |
| `ConfigHandshake.ChecksAgree` | src/lib/diagnostic_platform_config.c:523-548 | The two independent checks agree on any tables |
| `ConfigStatus.GetConfigError` | src/lib/platform_config_data.c:1139-1229 | The walk over the output's tables, by length, computes the error of the first that tells one |
| `ConfigStatus.FirstComplaint` | src/lib/platform_config_data.c:1139-1229 | The error is the complaint of the first table on the walk that is not silent; it is not found exactly if all are |
| `ConfigStatus.StatusExactly` | src/lib/config_goal.c:796-830 | Over all runs in which no step breaks the handshake: unknown without a goal, NEW exactly while one is pending, SUCCESS exactly if none is and byte 40 of the stored output is 1, and else the error, each kind told apart |
| `ConfigStatus.FailureTold` | src/lib/config_goal.c:764-830 | And that error is what the first complaining table of the output the boot left tells |
| `ConfigHandshake.CreatedGoalReadsBack` | src/lib/config_goal.c:977-1036 | A goal just written reads back from the partition as it was given exactly if its sizes fit a word in bytes, with status NEW if the partition is accepted again |
| `Alignment.GetGreatestCommonDivisor` | src/lib/utility.h:380-401 | The loop computes the Euclidean recursion |
| `Alignment.GcdDivides` | src/lib/utility.h:380-401 | The result divides both numbers |
| `Alignment.CommonDivisor` | src/lib/utility.h:380-401 | Every common divisor divides the result |
| `Alignment.LcmIsLeast` | src/lib/utility.h:403-408 | Both numbers divide the multiple, and it divides every common multiple |
| `Alignment.RealBlockSizeStays` | src/lib/utility.h:439-449 | Rounding a block size twice is rounding it once, and just 1 and whole cache lines need no rounding |
| `Alignment.CeilingIsLeast` | src/lib/utility.h:410-421 | The least multiple at or above a number |
| `Alignment.AlignmentIsLcm` | src/lib/namespace.c:1078-1081 | For driver block sizes the alignment is the least common multiple, without wrapping 32 bits |
| `Alignment.AdjustNamespaceBlockCount` | src/lib/namespace.c:1083-1095 | The adjusted block count |
| `Alignment.AlignedIsLeast` | src/lib/namespace.c:1083-1095 | The rounded capacity is the least multiple of both the real block size and a page per way at or above the request |
| `Alignment.AdjustIsExact` | src/lib/namespace.c:1083-1095 | The adjusted count times the real block size is exactly the rounded capacity, when that fits a word |
| `Alignment.AdjustCovers` | src/lib/namespace.c:1083-1095 | The adjusted count covers the request exactly when the rounded capacity fits a word |
| `Alignment.AdjustTwice` | src/lib/namespace.c:1083-1095 | Adjusting twice is adjusting once, exactly unless rounding leaves the word with at least a block |
| `Alignment.AdjustMonotone` | src/lib/namespace.c:1083-1095 | A larger request whose rounded capacity fits a word is not adjusted to less |
| `Alignment.MonotoneExactly` | src/lib/namespace.c:1083-1095 | No smaller request is adjusted to more, exactly if the rounded capacity fits a word or is, in a word, the largest aligned one |
| `Namespaces.DimmMeetsSecurityCriteria` | src/lib/namespace.c:411-492 | The single-DIMM check |
| `Namespaces.InterleaveMeetsSecurityCriteria` | src/lib/namespace.c:498-613 | What the flag loop decides on every input: the request is ignored, or a DIMM is discovered and all up to the first failed discovery pass alone |
| `Namespaces.SetMeetsIsForAll` | src/lib/namespace.c:498-613 | When discovery succeeds and the set is not empty, the set passes exactly when each DIMM alone would |
| `Namespaces.InterleaveSetHasNamespace` | src/lib/namespace.c:824-853 | Whether some readable App Direct namespace names the set |
| `Namespaces.FindInterleaveWithCapacity` | src/lib/namespace.c:855-952 | Succeeds if and only if some set without a namespace meets size, minimum, alignment, format and security for its own adjusted block count; returns the first such set with that count, and otherwise the error the partial matches call for |
| `Namespaces.SuitableIs` | src/lib/namespace.c:855-983 | What makes a set suitable, field by field: ids, gibibytes per DIMM, available capacity, block and page multiples, each DIMM's security, channel and controller sizes, and by one if by one is asked for |
| `Namespaces.AppDirectPlaced` | src/lib/namespace.c:855-952 | A placed App Direct namespace is on the first suitable set and fits there; it has the block count asked for, or, adjusted, the smallest capacity of whole blocks and pages that covers the request |
| `Namespaces.AppDirectRefused` | src/lib/namespace.c:915-949 | Bad size exactly if no set has room; bad alignment exactly if none with room is aligned; bad setting exactly if of those some are aligned and some secure but none has the format; else the security |
| `Namespaces.Examine` | src/lib/namespace.c:877-900 | The five findings about one set |
| `Namespaces.GetLargestAppDirectNamespace` | src/lib/namespace.c:1853-1870 | The largest space on any set without a namespace |
| `Namespaces.PlacedWithinLargest` | src/lib/namespace.c:1853-1870 | A placed App Direct namespace meets the minimum and is at most the reported largest size |
| `Namespaces.AdjustedIsAligned` | src/lib/namespace.c:881-897 | When adjustment is allowed and fits a word, alignment never stands in the way |
| `Namespaces.SizeMetCovers` | src/lib/namespace.c:877-897 | A capacity that meets the size condition covers the request exactly if that fits a word, as every App Direct request does; adjusted, it is then the least aligned one that covers it |
| `Namespaces.CheckCapacityAndSecurity` | src/lib/namespace.c:702-742 | The DIMM loop with its running error code |
| `Namespaces.SearchDimmsIs` | src/lib/namespace.c:702-742 | Finds a DIMM if and only if one fits, takes the first, and otherwise reports the refusal of the last known DIMM |
| `Namespaces.FindDimmWithCapacity` | src/lib/namespace.c:744-792 | The rounded capacity first, one alignment unit less when the last refusal was for the size |
| `Namespaces.AlignedCapacity` | src/lib/namespace.c:752-761 | What an aligned rounded capacity is, in every case of wrapping |
| `Namespaces.StorageCapacities` | src/lib/namespace.c:744-792 | The rounded capacity covers the request by less than one alignment unit exactly if the rounded request fits a word; each capacity tried, unless it is 0, is within a unit of the request exactly if that is neither empty nor more than 2^64 bytes |
| `Namespaces.StoragePlacedIff` | src/lib/namespace.c:744-792 | A storage namespace is placed exactly if the rounded capacity is aligned and fits some DIMM, or the last known DIMM has too little room for it and one unit less fits some DIMM |
| `Namespaces.StorageSound` | src/lib/namespace.c:744-792 | A placed storage namespace meets the minimum and fits the first DIMM that takes it; its capacity is within one alignment unit of the request exactly if that is neither empty nor more than 2^64 bytes, and aligned and made of whole blocks exactly if the rounded capacity is not 0 or the alignment divides 2^64 |
| `Namespaces.StorageDimm` | src/lib/namespace.c:702-792 | The DIMM of a placed storage namespace, field by field: known, with the room and the security asked for |
| `Namespaces.StorageFound` | src/lib/namespace.c:702-792 | While a DIMM has room and security for an aligned, large enough rounded capacity the namespace is placed |
| `Namespaces.StorageRefused` | src/lib/namespace.c:702-792 | Bad alignment exactly if the rounded capacity is not aligned; else a driver failure, bad size or bad security exactly as the last known DIMM is refused at the capacity tried last |
| `Namespaces.StorageUnaligned` | src/lib/namespace.c:744-762 | A request that may not be adjusted is taken as it is, and is aligned exactly if it is whole pages; an adjusted one that fits a word always is |
| `Namespaces.WrappedRequestIsPlaced` | src/lib/namespace.c:744-767 | A request of 2^64 bytes and a gibibyte is placed as a gibibyte |
| `Namespaces.FallbackMissed` | src/lib/namespace.c:769-783 | A pool where the smaller capacity would fit but is never tried |
| `FirmwarePackets.HeaderDecodes` | src/lib/device_fw.h:92-95 | A header carries its type, and the packet number modulo 2^14 |
| `FirmwarePackets.ChooseHeader` | src/lib/device.c:1070-1092 | Type, number and size of the packet at an offset |
| `FirmwarePackets.FillPacket` | src/lib/device.c:1070-1095 | Builds a packet in the reused buffer, stale tail included |
| `FirmwarePackets.TransferImage` | src/lib/device.c:1059-1104 | Sends the packets of the stream in order up to the first the driver fails, all of them exactly when it fails none |
| `FirmwarePackets.UpdateDeviceFirmware` | src/lib/device.c:1220-1224 | An image smaller than its header is refused before anything is sent |
| `FirmwarePackets.RestReceived` | src/lib/device.c:1059-1104 | The rest of the stream is received exactly if no number reaches 2^14 |
| `FirmwarePackets.StreamReceived` | src/lib/device.c:1059-1104 | The stream is accepted by a gap-checking receiver exactly for images of at most 64 * 2^14 bytes, and the payloads cut at the image's size are the image |
| `FirmwarePackets.StreamShape` | src/lib/device.c:1070-1092 | One INITIATE, then CONTINUEs, then one END, numbered 0 to n-1, with the number above the two type bits 0, 1 and 2 |
| `FirmwarePackets.TailIsStale` | src/lib/device.c:1053-1100 | Every packet carries 64 bytes: its chunk of the image, and behind a shorter last one what the packet before had there |
| `BiosMailbox.ChunksTile` | src/lib/lnx_adapter_passthrough.c:117-126 | The chunks tile the payload exactly; none is empty, and all but the last have the transfer size |
| `BiosMailbox.ChunkOf` | src/lib/lnx_adapter_passthrough.c:117-126 | Byte j is in chunk j / transfer size |
| `BiosMailbox.WriteChunk` | src/lib/lnx_adapter_passthrough.c:128-175 | One write command under any driver failure |
| `BiosMailbox.WriteLargePayload` | src/lib/lnx_adapter_passthrough.c:98-188 | Under arbitrary failures a write reports success only if the accepted chunks are all of them and the mailbox starts with the payload; nothing behind it ever changes |
| `BiosMailbox.ReadLargePayload` | src/lib/lnx_adapter_passthrough.c:193-286 | A read succeeds exactly when every chunk is delivered, and each byte is the mailbox's or, where the input could not be set, a stray one |
| `BiosMailbox.WrittenReadsBack` | src/lib/lnx_adapter_passthrough.c:193-286 | A read whose input-set calls succeed returns the written bytes |
| `BiosMailbox.StrayBytesGoUnnoticed` | src/lib/lnx_adapter_passthrough.c:241-264 | A failed input-set call is not noticed: every read succeeds, and whatever calls set their input, the bytes are the payload for all stray bytes exactly if all of them did |

## Left out

- `parse_trim_whitespace`: trailing whitespace that came from a reference can be trimmed past the start of the value.
- Indented printing, which adds whitespace that parses as data.
- The links of the attribute lists, which are the child lists again; `XmlClone` keeps attributes as a sequence.
- `XmlClone.CloneNode`: a node that hangs below itself, which the library does not exclude and whose cloning never ends.
- `XmlClone.CloneInto`: a result in the same tree as the source, which may then change while it is cloned.
- Name and value lookups of the DOM, and memory handed out by the pool for strings.
- The pool's addresses are unbounded numbers, so a pointer near the end of the address space does not wrap; the
  alignment mask is a remainder, which it is for the powers of two it is used with.
- Characters are those of Dafny's `char` rather than bytes; every value the 8-bit tables distinguish is included.
- Caller permissions, logging, events about goals and namespaces, SQLite itself, thread creation and sleeping.
- `validate_config_goal_alignment`: shifting an `int` by 31 or more has no defined meaning to state.
- `ConfigTables.DecodeConfigGoal`: asks for positive table lengths, because the walk does not move on at a length of
  0, and for a DIMM entry's worth of bytes behind the table, because the walk looks at entries before checking their end.
- More than 128 DIMM entries in one table, which the decoder writes past its array; the model's list grows.
- `ConfigHandshake.BuildPlatformConfigData`, `ConfigHandshake.UpdateConfigGoal`: tables that together do not fit the
  partition, which nothing checks.
- Memory that cannot be allocated.
- Reading the partition from a DIMM and writing it back: a failed write leaves the old partition, as a failed
  encoding does here. Revisions are not checked by the library.
- Table offsets and own lengths that point outside the partition, which nothing checks. A table that calls itself longer
  than its size field is copied with what follows it in the partition; the library reads only as many bytes as the size
  fields add up to, and copies what happens to follow in memory.
- `ConfigStatus.FailureTold`, `ConfigStatus.GetConfigError`: an output table whose own length is shorter than its fixed
  part, for which the length left for its extension tables wraps, or that is not followed by a partition table's worth of
  memory, because tables are looked at before their end is checked.
- `ConfigStatus.StatusExactly`, `ConfigHandshake.NewExactlySinceBoot`: start from a DIMM without a pending goal, and take
  the BIOS to answer an input table at every boot with its number.
- A mutex that cannot be taken, and callbacks that call back into the monitor.
- More than 65,535 stored events, whose count the query for events truncates.
- Each query is one step; the rows come newest first, as the database schema orders them. After a poll that counted no
  event found some with its second query, the code reads events it was not given; the model's poller stops there.
- `EventMonitor.Monitor.Poll`, `EventMonitor.Monitor.CopyEvents`: ask that an array without places comes with no rows,
  for the same reason.
- `Namespaces.FindInterleaveWithCapacity`: block sizes that need no rounding; callers admit only 1 for App Direct.
- `get_smallest_block_size`, which does not compute a minimum, and namespace modification.
- `FirmwarePackets.TransferImage`: images within a packet of 2^32 bytes, where the offset wraps.
- `FirmwarePackets.UpdateDeviceFirmware`: image header fields other than the size, and activation.
- `BiosMailbox.ReadLargePayload`: as for writing, next line.
- `BiosMailbox.WriteLargePayload`: a transfer size of 0, with which the loop never ends, and sizes within a transfer of
  2^32, where the offset wraps.
