# TinyXML and the relay's failover and limiter state machines

A Dafny model of two parts of the repository.

* **TinyXML** (`cftlib/tinyxml`): the printer, the recursive-descent parser, the document object
  model with its two linked structures, the row and column tracker and the end-of-line
  normalisation of `LoadFile`.
* **The relay** (`src`): the statistics that decide when a site switches to its next data centre,
  the switch manager over them, and the two-level rate limiter.

Run `dafny verify dfyconfig.toml` to check everything.

## How it is organised

| file | contents |
|---|---|
| CStrings, Options | bytes, C strings, pointers into them (null, a position, or meaningless) |
| Bits, Utf8, Scan, Entities, Text | the scanning functions, each a method proved against a function |
| Numeric, Escapes, Condensing | what those functions promise: reference values, escape round trips |
| Literals | what their tables and tests mean, with every byte written out |
| Trees, Parser, Document | trees; the parser as functions; the parser as a class with loops |
| Printing, RoundTrip, Layout | the printed text as a function; parsing undoes printing, and when it does not |
| Declared | the encoding that a byte order mark or a declaration settles |
| Worked, Malformed | worked documents; malformed ones with their errors and places |
| Quirks | malformed input that is read without an error |
| Bounds, EndOfLine | pointers stay in bounds; line ends |
| Location, Marks, Endings | rows and columns; the positions a parse tracks; when a parse ends |
| Attributes, Dom | the circular attribute list; nodes on the heap, their lists and copies |
| Visiting, DomRoundTrip | the visitor that prints nodes on the heap; the round trip for them |
| TimeCount, Limiter | the window counter; the two-level limiter over it |
| SwitchStats, Pools, SwitchMgr, Interleavings | one key; all keys; the manager; all threads |

A position in a C string `s` of length `n` runs from 0 to `n` (where the NUL stands); `n + 1` may be
formed but not read, and anything beyond is `Wild`. Time is an input of every step. Integers of the
source that the code itself wraps (the multiplier of numeric references, `unsigned`) wrap in the
model; counters do not.

## The round trip

`Layout.DocumentRoundTripIff` holds for lists of top-level nodes (not plain text, at least one) where

* names of elements and attributes are accepted whole by `ReadName` and, in UTF-8 mode, do not begin
  with one of the three sequences that are skipped as white space;
* attribute names of one element are distinct;
* texts and values have no `&#x` and, in UTF-8 mode, consist of complete characters;
* plain text is not blank and not next to plain text; when white space is condensed it must have no
  leading, trailing or doubled space and, in UTF-8 mode, not begin with one of those sequences; when it
  is kept, something must be left after the spaces and sequences it begins with;
* CDATA has no `]]>`, comments have no `-->`, unknown nodes have no `>` and do not look like
  something else, and values of declarations have no double quote and no ampersand. Each node is
  judged in the encoding in force at its place, which a declaration may have settled.

## What the model shows

* `EncodeString` passes `&#x` and what follows through unchanged, so the escape round trip holds
  exactly without it (`Escapes.KeepRoundTrip`). This includes a reference to a NUL or to another byte.
* A numeric reference is scanned back from the next semicolon, wherever that is. It can therefore
  pass over the end of an attribute value; the pointer then ends one past the terminating NUL
  (`Bounds.TerminatorPassedOver`). `Bounds.KeepStopsIff` and `Bounds.KeepGivesUpIff` say exactly when a
  value ends where it should and when it gives up.
* `utf8ByteTable` and the converter agree below 0x140000 only: for larger values the lead byte is
  0xF5 to 0xF7, whose table entry is 1 (`Utf8.LeadLengthAgrees`).
* An attribute that occurs twice ends its element with a null pointer but without an error, and
  nothing else does (`Quirks.ElementIsQuietIff`); what follows it is lost (`Quirks.ChildIsLost`).
* A bad field of a declaration is never an error, because its attributes belong to no document.
* An ampersand that begins no entity is dropped from the text (`Quirks.DroppedIffBare`); text whose
  ampersands are all like that comes back if and only if it has none (`Quirks.RawTextReads`).
* At an 0xEF with fewer than two bytes after it `Stamp` stands still for ever in UTF-8 mode
  (`Location.ShortLeadHolds`). A parse that tracks positions therefore never ends on `<a b=`, 0xEF, `/`
  (`Endings.CutValueNeverEnds`). It ends exactly if it stamps no position behind such a byte
  (`Endings.ParseEndsIff`), and always where it would find no error (`Endings.ReadEnds`).
* A declaration that names no encoding puts UTF-8 in force, and one that names anything that does not
  begin with `UTF-8` or `UTF8` reads the rest byte by byte (`Declared.DeclarationDecides`).
* `ReplaceChild` accepts a document, which the other list operations refuse. Copying a tree drops
  such documents, and cuts every value at its first NUL (`Dom.XmlNode.CloneIsExact`).
* Where white space is kept, a text beside other children comes back with the printer's indentation
  in it, so the round trip holds exactly without such texts (`Layout.DocumentRoundTripIff`).
* The window counter admits 2 max(1, max_count) - 1 calls in an interval as long as its period, one
  less than two full windows, and no bound below that holds (`TimeCount.TwoWindowBoundIsTight`).
* An error that begins a window because the one before has run out is never checked against the trip
  condition, while the same error after a reset is (`SwitchStats.LoneErrorLatchesIff`).

## Model

| member | source | states |
|---|---|---|
| `Layout.DocumentRoundTripIff` | cftlib/tinyxml/tinyxml.cpp:1758-1886 | for every document of the domain spelled out under "The round trip", every white-space indentation and line break, every encoding and both white-space modes: parsing what the printer prints gives back exactly the same nodes with no error if and only if white space is condensed, or none is printed, or no plain text has other children beside it |
| `DomRoundTrip.DomRoundTripIff` | cftlib/tinyxml/tinyxml.cpp:1758-1886 | the same for a tree on the heap: what the visitor prints of a document node is parsed to nodes that stand for the same tree, without an error, if and only if the printer's white space does not get into its texts |
| `DomRoundTrip.PrintedAsNode` | cftlib/tinyxml/tinyxml.cpp:1768-1886 | the text that the visitor makes of a tree on the heap is the text of the value the tree stands for |
| `Declared.MarkedRoundTrip` | cftlib/tinyxml/tinyxmlparser.cpp:735-747 | the bytes 0xEF 0xBB 0xBF in front of a printed document change nothing about how it is read back, in UTF-8 mode and where no encoding is declared, which they settle as UTF-8 |
| `Worked.DocumentPrinted` | cftlib/tinyxml/tinyxml.cpp:1768-1886 | a document with every form the printer knows is printed as the text that is written out there byte by byte |
| `Worked.DocumentRead` | cftlib/tinyxml/tinyxmlparser.cpp:704-796 | and that text is read as this document |
| `Layout.TextBetweenBlanks` | cftlib/tinyxml/tinyxmlparser.cpp:1177-1215 | when white space is kept, a text between printed white space is linked together with that white space |
| `Layout.ReadValueKeeps` | cftlib/tinyxml/tinyxmlparser.cpp:1177-1246 | a node that `ReadValue` has linked stays linked at its place, whatever goes wrong later |
| `RoundTrip.DocumentRoundTrip` | cftlib/tinyxml/tinyxml.cpp:1758-1886 | parsing what the printer prints for a list of top-level nodes gives back exactly these nodes with no error, whenever the layout allows it; the stop is at the end of the input, or null when the last node ends it |
| `RoundTrip.NodeReads` | cftlib/tinyxml/tinyxmlparser.cpp:818-905 | the printed form of an element, comment, unknown node, declaration or CDATA section, wherever it stands in the input, is identified as such and parsed back to the same node, ending just past it |
| `RoundTrip.ElementReads` | cftlib/tinyxml/tinyxmlparser.cpp:1049-1174 | the same for an element with all its attributes and descendants, in its three layouts (no children, one plain text, several lines) |
| `RoundTrip.ChildrenRead` | cftlib/tinyxml/tinyxmlparser.cpp:1177-1246 | `ReadValue` over the printed children, from any of them on, links exactly these children in order and stops at the end tag |
| `RoundTrip.AttributesRead` | cftlib/tinyxml/tinyxmlparser.cpp:1093-1173 | the attribute loop over printed attributes collects all of them in order and arrives just past the last |
| `RoundTrip.AttributeReads` | cftlib/tinyxml/tinyxmlparser.cpp:1389-1464 | a printed attribute is read back with its name and value, whichever quote the printer chose |
| `RoundTrip.NameReads` | cftlib/tinyxml/tinyxmlparser.cpp:401-436 | a name is read back as a whole and no white-space skipping moves into it |
| `RoundTrip.TextReads` | cftlib/tinyxml/tinyxmlparser.cpp:1498-1546 | an escaped text before a tag is parsed back, in the condensing mode also when white space follows it |
| `RoundTrip.CDataReads` | cftlib/tinyxml/tinyxmlparser.cpp:1498-1530 | a CDATA section without `]]>` is parsed back byte for byte |
| `RoundTrip.CommentReads` | cftlib/tinyxml/tinyxmlparser.cpp:1335-1386 | a comment without `-->` is parsed back byte for byte |
| `RoundTrip.UnknownReads` | cftlib/tinyxml/tinyxmlparser.cpp:1274-1305 | an unknown node that is not taken for anything else is parsed back byte for byte |
| `RoundTrip.DeclarationReads` | cftlib/tinyxml/tinyxmlparser.cpp:1572-1629 | a declaration, whose values are printed without escaping, is parsed back when they hold no double quote and no ampersand; empty values are left out and come back empty |
| `RoundTrip.PrintedIsCString` | cftlib/tinyxml/tinyxml.cpp:1768-1886 | printing a printable document produces no NUL byte |
| `Escapes.KeepRoundTrip` | cftlib/tinyxml/tinyxmlparser.cpp:574-636 | reading an escaped string up to a delimiter gives the string back and stops just past the delimiter if and only if the string does not contain `&#x`; any bytes in legacy mode, complete UTF-8 characters in UTF-8 mode |
| `Escapes.KeepReadsBack` | cftlib/tinyxml/tinyxmlparser.cpp:580-595 | the loop, at any point inside an escaped string, appends exactly the rest of the string |
| `Escapes.KeepShrinks` | cftlib/tinyxml/tinyxml.cpp:59-81 | when the loop does stop at the delimiter, the text is never longer than the string, and shorter if a character reference was passed through |
| `Escapes.EscapeReads` | cftlib/tinyxml/tinyxml.cpp:84-124 | the escape of every single byte (five names, the control bytes as two upper-case hexadecimal digits, other bytes themselves) is read back as that byte |
| `Escapes.EscapeShape` | cftlib/tinyxml/tinyxml.cpp:84-124 | no escape begins with a delimiter or a control byte, and only a space begins with a space |
| `Entities.EncodeString` | cftlib/tinyxml/tinyxml.cpp:51-132 | the loop appends to the output the escaped form that the lemmas above are about |
| `Entities.GetEntity` | cftlib/tinyxml/tinyxmlparser.cpp:438-531 | the entity reader, with its right-to-left scan in 32-bit arithmetic, returns what `EntityAt` says, for all inputs |
| `Entities.GetChar` | cftlib/tinyxml/tinyxml.h:328-362 | one character: an entity, a single byte, or a UTF-8 sequence padded as the source pads a cut one |
| `Literals.NamedEntities` | cftlib/tinyxml/tinyxmlparser.cpp:43-50 | the five names of section 4.6 of XML 1.0, written out, are read as the five bytes |
| `Literals.EscapesAre` | cftlib/tinyxml/tinyxml.cpp:82-124 | how every byte is escaped, written out: five names, two upper-case hexadecimal digits for control bytes, and the byte itself otherwise |
| `Literals.EncodesAs` | cftlib/tinyxml/tinyxml.cpp:51-81 | what is not `&#x` is escaped byte by byte; that is copied up to the next semicolon or to the last byte |
| `Literals.HexRefIs` | cftlib/tinyxml/tinyxml.cpp:59-81 | the exception in the round trip is that the string has `&#x` in it |
| `Literals.BareIs` | cftlib/tinyxml/tinyxmlparser.cpp:438-531 | the ampersands that are dropped, with the names written out |
| `Literals.CutCharacter` | cftlib/tinyxml/tinyxml.h:328-362 | a character that the end of the input cuts is padded with NULs |
| `Text.ReadText` | cftlib/tinyxml/tinyxmlparser.cpp:574-637 | both loops of `ReadText` compute `TextAt`, including a missing end tag, whose length is added all the same |
| `Text.TextAt` | cftlib/tinyxml/tinyxmlparser.cpp:626-636 | a pointer that is returned is at least the length of the end tag past the start and at most one past the terminating NUL |
| `Condensing.CondensedRoundTrip` | cftlib/tinyxml/tinyxmlparser.cpp:596-636 | the condensing path on an escaped string, followed by white space and a tag, gives the words of the string (cut at spaces only) joined by single spaces: control white space survives through its escapes |
| `Condensing.CondenseIdempotent` | cftlib/tinyxml/tinyxmlparser.cpp:596-636 | condensing a condensed string changes nothing, and creates no character reference |
| `Condensing.CondensedTwice` | cftlib/tinyxml/tinyxmlparser.cpp:596-636 | printing and condensing a second time reads the same text as the first time, in every encoding |
| `Condensing.WordsOfJoin` | cftlib/tinyxml/tinyxmlparser.cpp:596-636 | joining words with single spaces and cutting again gives the same words |
| `Numeric.HexReference` | cftlib/tinyxml/tinyxmlparser.cpp:452-487 | a hexadecimal reference of any length stands for its positional value modulo 2 to the 32, so exactly up to eight digits, and is consumed through its semicolon |
| `Numeric.DecimalReference` | cftlib/tinyxml/tinyxmlparser.cpp:488-512 | a decimal reference stands for a value congruent to its positional value modulo 2 to the 32, equal to it up to nine digits |
| `Numeric.HexStaysSmall` | cftlib/tinyxml/tinyxmlparser.cpp:452-487 | the hexadecimal accumulation never leaves 32 bits |
| `Numeric.DecimalExact` | cftlib/tinyxml/tinyxmlparser.cpp:488-512 | the decimal accumulation of up to nine digits is exact |
| `Literals.DigitsAre` | cftlib/tinyxml/tinyxmlparser.cpp:463-509 | the digits of references, written out |
| `Literals.ReferenceBytes` | cftlib/tinyxml/tinyxmlparser.cpp:511-516 | the bytes of a number: what RFC 3629 reads as that number in UTF-8 mode, one byte of it otherwise |
| `Utf8.EncodeDecode` | cftlib/tinyxml/tinyxmlparser.cpp:88-126 | a byte sequence is the encoding of a value below 0x200000 if and only if the independent decoder of section 3 of RFC 3629 (minimal length, continuation bytes 0x80-0xBF) reads that value from it |
| `Utf8.LeadLengthAgrees` | cftlib/tinyxml/tinyxmlparser.cpp:66-85 | the length table agrees with the length of the encoding if and only if the value is below 0x140000 |
| `Literals.LengthsAre` | cftlib/tinyxml/tinyxmlparser.cpp:66-85 | the ranges of lead bytes that announce two, three and four bytes; every other byte stands alone |
| `Utf8.EncodedIsComplete` | cftlib/tinyxml/tinyxml.h:328-362 | text encoded from values below 0x140000 consists of complete characters, the assumption that the UTF-8 theorems make |
| `Utf8.ContinuationBits` | cftlib/tinyxml/tinyxmlparser.cpp:103-118 | the mark, mask and cast of the source put 0x80 before the low six bits, that is before the remainder by 64 |
| `Utf8.LeadBits` | cftlib/tinyxml/tinyxmlparser.cpp:66-126 | setting the lead mark with a bitwise or is adding it, and the byte does not overflow |
| `Utf8.ConvertUTF32ToUTF8` | cftlib/tinyxml/tinyxmlparser.cpp:88-126 | the fall-through conversion, with the masks, ors and shifts of the source on 64-bit words, produces the encoding, from the last byte to the first |
| `Utf8.ContinuationByte` | cftlib/tinyxml/tinyxmlparser.cpp:103-118 | one case of the conversion: the remainder by 64 goes in front of the output and the quotient is left |
| `Bits.ShiftDivides` | cftlib/tinyxml/tinyxmlparser.cpp:103-118 | shifting right by six bits divides the value of a word by 64, its low six bits are the remainder |
| `Scan.SkipWhiteSpace` | cftlib/tinyxml/tinyxmlparser.cpp:314-362 | the skipping loop, with the three zero-width sequences of UTF-8 mode, stops where `SkipWs` says |
| `Scan.SkipBlank` | cftlib/tinyxml/tinyxmlparser.cpp:314-362 | skipping from the start of white space is skipping from its end |
| `Literals.SkippingIs` | cftlib/tinyxml/tinyxmlparser.cpp:314-362 | what skipping passes, written out: six white-space bytes, and in UTF-8 mode the byte order mark and the two noncharacters, byte by byte |
| `Literals.ColumnsAre` | cftlib/tinyxml/tinyxmlparser.cpp:261-285 | of the characters that begin with 0xEF these three take no column and every other takes one |
| `Literals.TallyIs` | cftlib/tinyxml/tinyxmlparser.cpp:213-303 | the same for the count byte by byte, with its line breaks |
| `Scan.ReadName` | cftlib/tinyxml/tinyxmlparser.cpp:401-436 | the name loop reads what `NameAt` says, or returns null |
| `Scan.NameAtReads` | cftlib/tinyxml/tinyxmlparser.cpp:401-436 | a name followed by a byte that cannot continue it is read exactly |
| `Literals.NameIs` | cftlib/tinyxml/tinyxmlparser.cpp:128-165 | the bytes that begin a name and the bytes that go on with it, written out; it is the longest run of them |
| `Scan.StringEqual` | cftlib/tinyxml/tinyxmlparser.cpp:534-572 | prefix comparison with and without case |
| `Literals.AnyCase` | cftlib/tinyxml/tinyxmlparser.cpp:534-572 | comparison without case, byte by byte |
| `Parser.ParseNode` | cftlib/tinyxml/tinyxmlparser.cpp:818-905 | a node's `Parse` never returns a position at or before its start, nor one past the end of the input, and leaves an earlier error alone; its own loops and recursion end on the bytes that remain (its calls of `Stamp` are the subject of `Endings`) |
| `Parser.ParseElement` | cftlib/tinyxml/tinyxmlparser.cpp:1049-1174 | the same for an element |
| `Parser.ReadValue` | cftlib/tinyxml/tinyxmlparser.cpp:1177-1246 | the same for the content of an element, which may be empty |
| `Parser.ParseDeclaration` | cftlib/tinyxml/tinyxmlparser.cpp:1572-1629 | the same for a declaration; past its `<?xml` nothing in it ever changes the error |
| `Parser.ParseComment` | cftlib/tinyxml/tinyxmlparser.cpp:1335-1386 | the same for a comment; a missing terminator makes the pointer meaningless (`Wild`), never a position |
| `Parser.ParseUnknown` | cftlib/tinyxml/tinyxmlparser.cpp:1274-1305 | an unknown node always returns a position after its start and at most the end |
| `Parser.ParseText` | cftlib/tinyxml/tinyxmlparser.cpp:1498-1546 | a text that does not start at a tag, and every CDATA section, makes progress |
| `Parser.ParseAttribute` | cftlib/tinyxml/tinyxmlparser.cpp:1389-1464 | the same for an attribute; its end may lie one past the terminating NUL |
| `Parser.DocumentLoop` | cftlib/tinyxml/tinyxmlparser.cpp:704-796 | the same for the loop over top-level nodes, which ends at most at the end of the input |
| `Declared.DeclarationDecides` | cftlib/tinyxml/tinyxmlparser.cpp:768-783 | where no encoding is known, a document that begins with a declaration is read exactly as in UTF-8 mode if it names none or one that begins with `UTF-8` or `UTF8` in any letter case, and exactly as in legacy mode if it names another |
| `Declared.DeclaredReference` | cftlib/tinyxml/tinyxmlparser.cpp:452-531 | so a reference to a number from 128 to 255 behind the declaration loads as its two UTF-8 bytes or as one byte |
| `Malformed.NoName` | cftlib/tinyxml/tinyxmlparser.cpp:1073-1082 | `<a`: the name is not read, at its first byte; with this error and place in every configuration and for every tab size from one |
| `Malformed.NoEnd` | cftlib/tinyxml/tinyxmlparser.cpp:1091-1098 | `<a `: the attributes are not read, from behind the name |
| `Malformed.NoBracket` | cftlib/tinyxml/tinyxmlparser.cpp:1099-1108 | `<a /`: the empty tag is not closed, behind the slash |
| `Malformed.NoEquals` | cftlib/tinyxml/tinyxmlparser.cpp:1404-1410 | `<a b`: an attribute is not read, at its name |
| `Malformed.BracketForEquals` | cftlib/tinyxml/tinyxmlparser.cpp:1411-1416 | `<a b>`: an attribute is not read, at the bracket |
| `Malformed.NoValue` | cftlib/tinyxml/tinyxmlparser.cpp:1418-1424 | `<a b=`: an attribute is not read, and no position is left to report |
| `Malformed.StrayQuote` | cftlib/tinyxml/tinyxmlparser.cpp:1450-1458 | `<a b=c` and a quote: an attribute is not read, at the quote |
| `Malformed.NothingAfter` | cftlib/tinyxml/tinyxmlparser.cpp:1146-1155 | `<a b='c'`: the element is not read, at the attribute |
| `Malformed.NoContent` | cftlib/tinyxml/tinyxmlparser.cpp:1241-1245 | `<a>`: the content is not read, without a position |
| `Malformed.NoEndOfText` | cftlib/tinyxml/tinyxmlparser.cpp:1241-1245 | `<a>x`: the content is not read, without a position |
| `Malformed.NoEndTag` | cftlib/tinyxml/tinyxmlparser.cpp:1110-1122 | `<a> `: the end tag is not read, at the end of the input |
| `Malformed.OtherEndTag` | cftlib/tinyxml/tinyxmlparser.cpp:1124-1134 | `<a></b>`: the end tag is not read, where another one stands |
| `Malformed.NoDocument` | cftlib/tinyxml/tinyxmlparser.cpp:704-796 | a text that has anything but a tag behind its white space is an empty document |
| `Malformed.DeclarationStamped` | cftlib/tinyxml/tinyxmlparser.cpp:1584-1606 | a declaration stamps its start and the start of its fields |
| `Malformed.TextStamped` | cftlib/tinyxml/tinyxmlparser.cpp:1184-1210 | a text stamps its start, in front of its white space only if that is kept |
| `Endings.ParseEndsIff` | cftlib/tinyxml/tinyxmlparser.cpp:704-816 | a document's parse, with every call of `Stamp` that its nodes, attributes and first error make, ends if and only if the tab size is below one or no 0xEF with fewer than two bytes after it is a character, counted from the position stamped last before UTF-8 mode, in front of the furthest position stamped in UTF-8 mode |
| `Endings.ParseEndsIfClean` | cftlib/tinyxml/tinyxmlparser.cpp:196-311 | so it ends when the encoding is declared to be another one, when the last two bytes are not 0xEF, or when all characters are complete |
| `Endings.ReadEnds` | cftlib/tinyxml/tinyxmlparser.cpp:704-816 | and whenever the parser's own loops read the document without an error and without a pointer leaving the input |
| `Endings.PrintedEnds` | cftlib/tinyxml/tinyxml.cpp:1758-1886 | in particular for every printed document that is read back |
| `Endings.CutValueNeverEnds` | cftlib/tinyxml/tinyxmlparser.cpp:1440-1462 | but not for `<a b=` followed by 0xEF and a slash or quote: in UTF-8 mode, for every tab size from one, the parse of these seven bytes never ends, although the parser's own loops would return null |
| `Location.EndsIff` | cftlib/tinyxml/tinyxmlparser.cpp:196-311 | the same for any run of calls in which UTF-8 mode, once entered, is kept |
| `Bounds.DocumentInBounds` | cftlib/tinyxml/tinyxmlparser.cpp:704-796 | in the document's encoding (in both, as long as none is declared): when characters are complete, comments and CDATA sections are closed, and every quote after an equals sign is closed with no numeric reference reaching over the closing one, no pointer of the whole parse leaves the input |
| `Bounds.NodeInBounds` | cftlib/tinyxml/tinyxmlparser.cpp:818-905 | the same for a single node, with the condition on the input from its start on only |
| `Bounds.KeepInBounds` | cftlib/tinyxml/tinyxmlparser.cpp:634-636 | when no numeric reference between the start and the first delimiter reaches over it, reading ends inside the input if and only if the delimiter occurs; nothing is asked of the text before or after |
| `Bounds.KeepStopsIff` | cftlib/tinyxml/tinyxmlparser.cpp:580-595 | where a delimiter or the end of the string first follows, the loop gives up with null, or it stops just past that place if and only if no numeric reference before it reaches over a delimiter; for every string of complete characters in its encoding |
| `Bounds.KeepGivesUpIff` | cftlib/tinyxml/tinyxmlparser.cpp:438-531 | the loop gives up with null if and only if it comes, before a delimiter, to a numeric reference without a semicolon or with a byte that is no digit between the semicolon and the `x` or `#` to its left |
| `Bounds.TerminatorPassedOver` | cftlib/tinyxml/tinyxmlparser.cpp:445-512 | a numeric reference can pass over the delimiter: after `&#x"x0;` the pointer ends one past the NUL although the quote occurs, the case that `KeepStopsIff` tells apart |
| `Quirks.ElementIsQuietIff` | cftlib/tinyxml/tinyxmlparser.cpp:1049-1174 | an element ends with null and without an error if and only if its name is read and two of the attributes that can be read after it have the same name; every other null comes with an error |
| `Quirks.RepeatedAttributeEnds` | cftlib/tinyxml/tinyxmlparser.cpp:1157-1168 | after printed attributes with a name repeated, the element keeps the attributes so far with the last value (up to a NUL), has no content, and whatever follows is not read |
| `Quirks.RepeatedAttributeLosesRest` | cftlib/tinyxml/tinyxmlparser.cpp:1157-1168 | so a document that begins with such an element loads without an error and without anything after the repeated attribute |
| `Quirks.ChildIsLost` | cftlib/tinyxml/tinyxmlparser.cpp:1157-1168 | for instance `<a x="1" x="2"><b/></a>` loses its child in every configuration |
| `Quirks.DroppedIffBare` | cftlib/tinyxml/tinyxmlparser.cpp:438-531 | an ampersand is passed over alone and stands for nothing if and only if it begins none of the five names and no `#` with something after it follows |
| `Quirks.RawTextReads` | cftlib/tinyxml/tinyxmlparser.cpp:580-595 | text whose ampersands are all of that kind is read without them and with everything else, so it comes back if and only if it has none |
| `Document.XmlDocument.Parse` | cftlib/tinyxml/tinyxmlparser.cpp:704-796 | where `Endings.ParseEndsIff` says that it ends, the imperative parser of documents, with its first-error-stays state, the encoding settled by byte order mark or declaration, and whatever children the document has already, computes `ParseOnto`, and the row and column of the error, for all inputs and configurations |
| `Document.XmlDocument.ParseTopLevel` | cftlib/tinyxml/tinyxmlparser.cpp:753-780 | its loop over top-level nodes, and stamps the positions that `Marks` lists, in that order |
| `Layout.DocumentLoopAppends` | cftlib/tinyxml/tinyxmlparser.cpp:753-780 | the loop over top-level nodes appends to the children that are there exactly the nodes it gives for an empty document, with the same error and pointer unless it finds none, which is an error only where there were no children |
| `Document.XmlDocument.ParseNode` | cftlib/tinyxml/tinyxmlparser.cpp:818-905 | where the calls of `Stamp` to come end, it computes the function the theorems are about, in result, pointer and error, and stamps the positions that `Marks` lists, in that order |
| `Document.XmlDocument.Identify` | cftlib/tinyxml/tinyxmlparser.cpp:818-905 | the kind of node at a tag |
| `Literals.KindsAre` | cftlib/tinyxml/tinyxmlparser.cpp:818-905 | the openings of the kinds of nodes, written out |
| `Document.XmlDocument.ParseElement` | cftlib/tinyxml/tinyxmlparser.cpp:1049-1150 | an element, from its name on, in the same way |
| `Document.XmlDocument.ParseAttributes` | cftlib/tinyxml/tinyxmlparser.cpp:1091-1173 | the attribute loop of an element, including the duplicate that ends it with null and no error, in the same way |
| `Document.XmlDocument.ParseContent` | cftlib/tinyxml/tinyxmlparser.cpp:1118-1145 | the content and end tag of an element, in the same way |
| `Document.XmlDocument.ReadValue` | cftlib/tinyxml/tinyxmlparser.cpp:1177-1246 | the loop over the content, with blank texts dropped, in the same way |
| `Document.XmlDocument.ParseChild` | cftlib/tinyxml/tinyxmlparser.cpp:1184-1233 | one child of the content, with white space put back before a text that keeps it, in the same way |
| `Document.XmlDocument.ParseText` | cftlib/tinyxml/tinyxmlparser.cpp:1498-1546 | texts and CDATA sections, in the same way |
| `Document.XmlDocument.ParseComment` | cftlib/tinyxml/tinyxmlparser.cpp:1335-1386 | comments, in the same way |
| `Document.XmlDocument.ParseUnknown` | cftlib/tinyxml/tinyxmlparser.cpp:1274-1305 | unknown nodes, in the same way |
| `Document.XmlDocument.ParseDeclaration` | cftlib/tinyxml/tinyxmlparser.cpp:1572-1629 | declarations, in any order of fields and with junk between them skipped, in the same way; their attributes belong to no document, so a bad field is no error, but their start is stamped |
| `Document.XmlDocument.ParseAttribute` | cftlib/tinyxml/tinyxmlparser.cpp:1389-1464 | attributes, which record and stamp their errors if and only if they belong to a document, in the same way |
| `Document.XmlDocument.ParseAttributeValue` | cftlib/tinyxml/tinyxmlparser.cpp:1420-1462 | values in single, double or no quotes, in the same way |
| `Document.XmlDocument.ParseUnquoted` | cftlib/tinyxml/tinyxmlparser.cpp:1440-1462 | a value without quotes ends at white space, `/` or `>`, and a quote in it is an error at that quote, in the same way |
| `Literals.UnquotedIs` | cftlib/tinyxml/tinyxmlparser.cpp:1440-1462 | the bytes that end a value without quotes, written out |
| `Literals.JunkIs` | cftlib/tinyxml/tinyxmlparser.cpp:1616-1626 | the bytes that end what a declaration passes over |
| `Document.XmlDocument.SetError` | cftlib/tinyxml/tinyxmlparser.cpp:798-815 | only the first error is kept; without a position, the place of the error is unknown |
| `Document.XmlDocument.SetErrorAt` | cftlib/tinyxml/tinyxmlparser.cpp:798-815 | with one, an error that is the first stamps it and keeps the row and column, and a later one does neither |
| `Document.XmlDocument.LoadFile` | cftlib/tinyxml/tinyxml.cpp:973-1085 | an empty file is an error that does not displace an earlier one; otherwise, where that parse ends, the result and the place of the error are those of parsing the normalised bytes before the first NUL |
| `Visiting.Printer.Accept` | cftlib/tinyxml/tinyxml.cpp:846-857 | visiting a node of the heap, by its sibling links, appends the text that `PrintTree` makes of its tree, and restores the printer's state; the tree is unchanged |
| `Visiting.Printer.VisitChildren` | cftlib/tinyxml/tinyxml.cpp:1160-1171 | the loop over the children of an element or a document |
| `Visiting.Printer.AppendAttributes` | cftlib/tinyxml/tinyxml.cpp:1774-1778 | the loop over the ring of attributes by `First` and `Next`, which stops at an attribute, other than the first, that is entirely empty |
| `Literals.PrintedAttributeIs` | cftlib/tinyxml/tinyxml.cpp:1199-1230 | a value stands in double quotes unless it has one in it, and then in single quotes |
| `Visiting.Printer.VisitEnter` | cftlib/tinyxml/tinyxml.cpp:1768-1802 | start tag with the attributes that are enumerated; a single plain text child switches to the one-line layout |
| `Visiting.Printer.VisitExit` | cftlib/tinyxml/tinyxml.cpp:1805-1828 | end tag in the layout chosen at the start |
| `Visiting.Printer.VisitText` | cftlib/tinyxml/tinyxml.cpp:1831-1856 | a text in its three layouts |
| `Visiting.Printer.VisitDeclaration` | cftlib/tinyxml/tinyxml.cpp:1859-1865 | a declaration with its non-empty fields |
| `Visiting.Printer.VisitComment` | cftlib/tinyxml/tinyxml.cpp:1868-1876 | a comment |
| `Visiting.Printer.VisitUnknown` | cftlib/tinyxml/tinyxml.cpp:1879-1886 | an unknown node |
| `Location.ParsingData.Stamp` | cftlib/tinyxml/tinyxmlparser.cpp:196-311 | where no short 0xEF is a character on its way in UTF-8 mode, the loop ends and moves the cursor as `Walk` does; a tab size below one switches tracking off |
| `Location.ArrivesIff` | cftlib/tinyxml/tinyxmlparser.cpp:261-303 | it ends if and only if none of the characters from the cursor up to the goal, taken one after the other by the length table, is, in UTF-8 mode, an 0xEF with fewer than two bytes after it |
| `Location.ShortLeadHolds` | cftlib/tinyxml/tinyxmlparser.cpp:261-285 | for instance it stays for ever at an 0xEF in front of a slash that ends the input |
| `Location.StampPathIndependent` | cftlib/tinyxml/tinyxmlparser.cpp:196-311 | a sequence of calls in one encoding ends if and only if the call at its furthest position does, and then leaves the cursor of that single call |
| `Location.WalkIsTally` | cftlib/tinyxml/tinyxmlparser.cpp:213-303 | row and column equal a count that looks at one byte at a time (CR, LF and their pairs as one break, tabs, multi-byte and zero-width characters), for all inputs, up to where the walk stands or past a character that is cut by the end |
| `Location.TabStopIs` | cftlib/tinyxml/tinyxmlparser.cpp:254-258 | a tab moves to the next multiple of the tab size |
| `Location.StepAdvances` | cftlib/tinyxml/tinyxmlparser.cpp:261-303 | a round of the loop makes progress if and only if it does not stand, in UTF-8 mode, on an 0xEF with fewer than two bytes after it; otherwise it changes nothing |
| `EndOfLine.NormalizeBuffer` | cftlib/tinyxml/tinyxml.cpp:1024-1077 | the chunked loop over the buffer gives the normal form of the bytes before the first NUL; every buffer access and position assertion holds |
| `EndOfLine.NormalizeIsUnlines` | cftlib/tinyxml/tinyxml.cpp:1024-1077 | the normal form has the same lines as the text, whether CRLF, CR or LF ends them, each but the last ended by one LF (section 2.11 of XML 1.0) |
| `EndOfLine.NormalizeHasNoCR` | cftlib/tinyxml/tinyxml.cpp:1024-1077 | it has no CR and is no longer than the text |
| `EndOfLine.NormalizeKeeps` | cftlib/tinyxml/tinyxml.cpp:1024-1077 | it equals the text if and only if the text has no CR |
| `EndOfLine.NormalizeTwice` | cftlib/tinyxml/tinyxml.cpp:1024-1077 | a second pass changes nothing |
| `Worked.LineEndsNormalized` | cftlib/tinyxml/tinyxml.cpp:1024-1077 | a text with all three line ends, normalised |
| `Worked.SpacesCondensed` | cftlib/tinyxml/tinyxmlparser.cpp:596-636 | a text with white space around and inside, condensed |
| `Attributes.AttributeSet.Find` | cftlib/tinyxml/tinyxml.cpp:1551-1583 | the attribute of that name on the ring, or null if and only if there is none |
| `Attributes.AttributeSet.Add` | cftlib/tinyxml/tinyxml.cpp:1516-1529 | a new name is appended to the ring, which stays well formed with distinct names |
| `Attributes.AttributeSet.Remove` | cftlib/tinyxml/tinyxml.cpp:1531-1549 | the attribute is taken out wherever it stands, the others keep their order, and its own links are cleared |
| `Attributes.AttributeSet.SetAttribute` | cftlib/tinyxml/tinyxml.cpp:717-744 | an ordered map: the value is replaced in place or the pair is appended |
| `Literals.SettingIs` | cftlib/tinyxml/tinyxml.cpp:717-744 | setting changes the value of that name only and adds an attribute only for a new name |
| `Attributes.AttributeSet.RemoveAttribute` | cftlib/tinyxml/tinyxml.cpp:416-429 | the pair of that name goes, an unknown name changes nothing |
| `Attributes.AttributeSet.First` | cftlib/tinyxml/tinyxml.h:913-914 | the first attribute of the ghost sequence, or null when it is empty |
| `Attributes.AttributeSet.Last` | cftlib/tinyxml/tinyxml.h:915-916 | the last attribute of the ghost sequence, or null when it is empty |
| `Attributes.AttributeSet.Enumerate` | cftlib/tinyxml/tinyxml.cpp:1174-1181 | going from `First` by `Next` lists the attributes in order up to the first, after the initial one, whose name and value are both empty |
| `Attributes.EnumerationComplete` | cftlib/tinyxml/tinyxml.cpp:1174-1181 | that is all of them if and only if none but the first has both empty |
| `Attributes.AttributeSet.CopyTo` | cftlib/tinyxml/tinyxml.cpp:830-836 | the copying loop sets on the target, over whatever attributes it has, what it enumerates, each string up to its first NUL, on attributes that are all new |
| `Attributes.CopyIsExact` | cftlib/tinyxml/tinyxml.cpp:830-836 | the copy of the attributes equals the original if and only if no string has a NUL and the enumeration does not stop early |
| `Dom.XmlNode.LinkEndChild` | cftlib/tinyxml/tinyxml.cpp:184-208 | appends the node to the list of children, keeping first, last, previous, next and parent links of the whole tree right; a document is refused and nothing changes |
| `Dom.XmlNode.InsertEndChild` | cftlib/tinyxml/tinyxml.cpp:211-223 | appends a copy |
| `Dom.XmlNode.InsertBeforeChild` | cftlib/tinyxml/tinyxml.cpp:226-255 | inserts a copy in front of the given child; null, and nothing changed, if and only if there is no such child or a document is given. The given node may be part of the same tree |
| `Dom.XmlNode.InsertAfterChild` | cftlib/tinyxml/tinyxml.cpp:258-287 | the same after the given child |
| `Dom.XmlNode.ReplaceChild` | cftlib/tinyxml/tinyxml.cpp:290-315 | puts a copy in the place of the given child, even of a document, which the other operations refuse |
| `Dom.XmlNode.RemoveChild` | cftlib/tinyxml/tinyxml.cpp:318-338 | takes the child out; the tree that is left has nothing in common with what was removed |
| `Dom.XmlNode.Clear` | cftlib/tinyxml/tinyxml.cpp:167-181 | deletes every child exactly once and in order, and leaves an empty list |
| `Dom.XmlNode.SplicedContent` | cftlib/tinyxml/tinyxml.cpp:184-338 | the reason behind all six: a change of links that splices the list of children, and touches nothing else, splices the tree in the same way and keeps it a tree of disjoint parts |
| `Dom.XmlNode.Relinked` | cftlib/tinyxml/tinyxml.cpp:184-338 | a node and everything below it do not depend on its own place among its siblings |
| `Dom.XmlNode.SetAttribute` | cftlib/tinyxml/tinyxml.cpp:717-744 | changes the attributes of the element as the ordered map says and nothing else in the tree |
| `Dom.XmlNode.RemoveAttribute` | cftlib/tinyxml/tinyxml.cpp:416-429 | the same for removal |
| `Dom.XmlNode.Clone` | cftlib/tinyxml/tinyxml.cpp:860-868 | a tree of new nodes and attributes only, linked nowhere, that holds what `Copied` says; the source is unchanged |
| `Dom.XmlNode.CopyTo` | cftlib/tinyxml/tinyxml.cpp:824-843 | the parts of a node that each kind copies, onto whatever the target has: attributes are set one by one, copies of the children are appended for elements and documents, values are replaced |
| `Dom.XmlNode.CloneIsExact` | cftlib/tinyxml/tinyxml.cpp:860-868 | for every tree on the heap the copy is equal if and only if no copied string has a NUL, no attribute but the first of an element is entirely empty, only elements and documents have children, and no document lies below the root |
| `Dom.CopiedIsExact` | cftlib/tinyxml/tinyxml.cpp:824-843 | the same for trees as values |
| `TimeCount.TimeCountPolicy.IncreaseCount` | src/time_count_policy.cpp:27-54 | the counter's new state and answer; a refused call is counted all the same |
| `TimeCount.RunIsWindows` | src/time_count_policy.cpp:27-54 | after any run of single calls the fields are the start of the current window and the number of its calls, windows being cut by comparing call times only |
| `TimeCount.AcceptedIff` | src/time_count_policy.cpp:27-54 | a call is accepted if and only if it is among the first max(1, max_count) of its window |
| `TimeCount.StartsApart` | src/time_count_policy.cpp:27-54 | windows start at least a period apart |
| `TimeCount.TwoWindowBound` | src/time_count_policy.cpp:27-54 | any interval as long as the period has at most 2 max(1, max_count) - 1 accepted calls |
| `TimeCount.TwoWindowBoundIsTight` | src/time_count_policy.cpp:27-54 | for every period from 2 and every max_count from 1 a run reaches that number |
| `Limiter.FixFreqControlRule.CheckRule` | src/service_fixed_control_rule.cpp:103-164 | the exact new counters and outcome of a request, for all rules, keys and parameters |
| `Limiter.FixFreqControlRule.Lookup` | src/service_fixed_control_rule.cpp:167-182 | the first rule with these values, or none |
| `Limiter.FixFreqControlRule.CollectValues` | src/service_fixed_control_rule.cpp:121-145 | a value for every key if and only if each is a parameter or is called service_name |
| `Limiter.RuleForIs` | src/service_fixed_control_rule.cpp:121-145 | the rule a request falls under is the first whose values are, key for key, its parameters, where only `service_name` may be missing and is then the service's name |
| `Limiter.FixFreqControlRule.constructor` | src/service_fixed_control_rule.cpp:27-100 | every rule gets its own counter, none shared |
| `Limiter.CountersAreIndependent` | src/service_fixed_control_rule.cpp:103-164 | after any run the master's counter is that of all requests, and each rule's counter is that of exactly the requests which the master accepted and whose first matching rule it is |
| `Limiter.OutcomeIff` | src/service_fixed_control_rule.cpp:103-164 | a request is refused by the master if and only if its own history says so, and by a rule if and only if the master accepts and the rule's own history says so |
| `Limiter.Conservation` | src/service_fixed_control_rule.cpp:103-164 | the calls of all rules together plus the accepted requests without a rule are the acceptances of the master |
| `Limiter.PassedIsBounded` | src/service_fixed_control_rule.cpp:103-164 | in any interval as long as the respective period, fewer requests pass than twice the quota of the master, and fewer under each rule than twice its quota |
| `SwitchStats.SwitchKeyStats.IncrementRequests` | src/switch_key_stats.h:131-170 | the four fields after a request |
| `SwitchStats.SwitchKeyStats.IncrementErrors` | src/switch_key_stats.h:174-235 | the four fields after an error; the division never meets a zero |
| `SwitchStats.SwitchKeyStats.SuccessRatio` | src/switch_key_stats.h:190-191 | the exact percentage of requests without an error, zero from where the errors reach the requests and a hundred without errors |
| `SwitchStats.SwitchKeyStats.Reset` | src/switch_key_stats.h:239-250 | the fields after a reset |
| `SwitchStats.CountersAreHistory` | src/switch_key_stats.h:129-250 | at every point of every run the counters are those of the calls since the window began: errors are the error calls, requests the other calls and one more if an error began the window |
| `SwitchStats.RequestsAre` | src/switch_key_stats.h:129-250 | the same count without recursion |
| `SwitchStats.LatchedIff` | src/switch_key_stats.h:193-205 | a key is latched if and only if the calls of its window meet the trip condition, and no earlier part of the window did |
| `SwitchStats.LatchedWhen` | src/switch_key_stats.h:193-205 | the same with the trip condition written out: requests from the threshold up, and errors times a hundred from (100 - ratio) times the requests up |
| `SwitchStats.ErrorLatchesIff` | src/switch_key_stats.h:174-211 | one more error latches the key at once exactly under that condition on the counters |
| `SwitchStats.WindowIsRecent` | src/switch_key_stats.h:129-250 | a window holds calls only, less than the interval apart, and begins with a reset, the creation of the key, or a call too late for the window before |
| `SwitchStats.LatchedHasEvidence` | src/switch_key_stats.h:129-250 | a latched key has at least the threshold number of calls in sequence, less than the interval apart, ending in an error, whose errors make up at least what the minimum ratio leaves of a hundred percent |
| `SwitchStats.LoneErrorLatchesIff` | src/switch_key_stats.h:213-235 | a single error latches if and only if one request suffices, no success is asked for, and the window was begun by a reset: an error that begins a window by itself is not looked at |
| `Pools.SwitchStatsPool.Reset` | src/switch_key_stats.h:343-366 | exactly the keys of the same group are reset |
| `Pools.SwitchStatsPool.IncrementErrors` | src/switch_key_stats.h:327-339 | exactly this key counts the error; an unknown key changes nothing |
| `Pools.SwitchStatsPool.IncrementRequests` | src/switch_key_stats.h:311-323 | exactly this key counts the request |
| `Pools.SwitchStatsPool.Init` | src/switch_key_stats.h:281-300 | a fresh entry for every configured key, replacing an older one |
| `SwitchMgr.RelaySwitchMgr.TrySwitch` | src/switch_mgr.cpp:143-164 | the new state of both pools, the calls of `set_switch_on` and the answer, for all states |
| `SwitchMgr.RelaySwitchMgr.TryServiceSwitch` | src/switch_mgr.cpp:172-234 | an error outside the list of the service counts; a trip resets both groups |
| `SwitchMgr.RelaySwitchMgr.TrySiteSwitch` | src/switch_mgr.cpp:237-294 | an error inside the list of the site counts; a trip resets both groups |
| `SwitchMgr.RelaySwitchMgr.IncrRequest` | src/switch_mgr.cpp:127-140 | both pools count the request where they are initialised and know the key |
| `SwitchMgr.RelaySwitchMgr.Init` | src/switch_mgr.cpp:40-93 | a pool that is initialised already is left alone |
| `SwitchMgr.RelaySwitchMgr.ReInit` | src/switch_mgr.cpp:95-124 | both pools start afresh from the new configuration |
| `SwitchMgr.OutcomeIs` | src/switch_mgr.cpp:142-294 | -1 if and only if the service has no list without the error and the site no list with it, and then nothing changes; 1 if and only if the service or else the site trips, and then exactly the keys with the same `keyId` as either are reset; 0 otherwise, with the error counted and nothing reset; `set_switch_on` is called at most once, only on a trip with a next data centre, the switch on and the site known |
| `SwitchMgr.TripsNowIff` | src/switch_key_stats.h:174-211 | an error trips a key in its window exactly when the errors then make up at least what the minimum ratio leaves of a hundred percent of enough requests |
| `SwitchMgr.TripResetsGroup` | src/switch_mgr.cpp:184-216 | a trip resets exactly the group of the tripped key |
| `Interleavings.NeverLatched` | src/switch_mgr.cpp:126-294 | after any sequence of locked blocks on a pool no key in it is latched |
| `Interleavings.AlwaysQuiescent` | src/switch_mgr.cpp:126-294 | the same for both pools under every interleaving of the blocks of all threads |
| `Interleavings.KeysAreIndependent` | src/switch_mgr.cpp:126-294 | under every interleaving the statistics of a key are those of its own calls and the resets of its group alone |
| `Interleavings.TripHasEvidence` | src/switch_mgr.cpp:126-294 | in every interleaving from the empty pool, across any changes of the configuration, a trip has the evidence of `SwitchStats.LatchedHasEvidence` in the tripped key's own calls since its group was last reset or the configuration last changed |
| `Interleavings.PoolsAreIndependent` | src/switch_mgr.cpp:126-294 | each pool sees a run of its own blocks |
| `Interleavings.SwitchIsRun` | src/switch_mgr.cpp:143-164 | an undisturbed `trySwitch` is one of these runs |
| `Interleavings.ErrorsAreOfLists` | src/switch_mgr.cpp:142-294 | in any run of calls the errors counted against a service are exactly those outside its list, and those counted against a site exactly those inside its list that no trip of the service forestalls |

## Left out

- The parser builds trees as values: that `Parse` links nodes on the heap one by one is not modelled, and
  the row and column stored in each node are not kept, only the cursor that they are copied from.
  `Dom` models the heap on its own.
- The class hierarchy of nodes is one class with a kind; every node has an attribute list, which only
  elements use. `delete` is not modelled: a removed node stays allocated but is in no tree.
- Document.XmlDocument.LoadFile: takes the bytes of the file; opening, seeking and reading are not modelled.
- Scan.StringEqual: an assertion of the source on the empty string is taken as switched off.
- Dom.XmlNode.RemoveChild: returns false for a node that is not a child, where a build with assertions stops.
- Dom.XmlNode.InsertBeforeChild: the error that a refused document leaves in the enclosing document is not modelled (the same for the other list operations), nor are the error and settings that copying a document copies.
- Bounds.DocumentInBounds: its condition is sufficient, not necessary: it also looks at quotes and tags in places where none is read.
- Bounds.NodeInBounds: the same.
- Document.XmlDocument.Parse: nothing is said where `Stamp` never returns; a parse that goes on from an earlier one's cursor (`prevData`) is not modelled.
- DomRoundTrip.DomRoundTripIff: for trees that the parser can build; documents below the root and children of leaves have no counterpart there.
- TimeCount.RunIsWindows: for single calls, the only ones the limiter makes, and counters that do not overflow.
- Limiter.FixFreqControlRule.constructor: takes the rules already split; the text format is not modelled.
- SwitchStats.SwitchKeyStats.SuccessRatio: exact, where the source computes in `float`; the counters do not overflow.
- Reads of a pool outside its lock are not modelled as races on memory: a block is one step, and the checks before it only choose it.
- The clock is read once in each block; the group of a tripped key is reset with one reading.
- `unsigned long` has 64 bits, `isspace` and `isalpha` are those of the C locale, `TIXML_USE_STL` is defined.
- `FILE*` printing, `StreamIn`, number conversions, `TiXmlHandle`, iteration by name and the user data of nodes.
- Logging, statistics lines, exception texts, configuration readers, server and site tables, management commands.
