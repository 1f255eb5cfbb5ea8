# Verified models of the form, JSON, queue, executor and routing code

A Dafny 4.11 project about five parts of this repository. `dafny verify dfyconfig.toml` checks all of it.

* **Multipart forms** (`MultipartMachine`, `MultipartParser`, `MultipartDelimiter`, `MultipartChunks`,
  `MultipartGrammar`, `HeaderText`, `FormData`, `MultipartForm`, `FormContents`, `FormRoundTrip`, `FormHeaders`). The
  streaming parser with its lookbehind buffer is a class proved equal to a machine that reads one byte at a time. For
  that machine: which boundaries it can find exactly (RFC 2046, section 5.1.1), when cutting the input into chunks makes
  no difference, and, by a grammar of whole texts that knows no states, which texts it takes, how far, and what it
  reports. For the form: when the encoder's text parses back to it (RFC 7578, section 4), and what headers in any case
  and pieces of a Content-Disposition written by hand come to.
* **JSON text** (`UnicodeEscape`, `JsonString`, `JsonText`, `JsonGrammar`, `JsonParser`, `JsonPrinter`,
  `JsonRoundTrip`, `JsonSyntax`, `JsonLiterals`, `JsonExact`, `JsonStrict`, `JsonApi`, `MinifiedText`, `JsonMinify`,
  `MinifyCorrect`). The recursive-descent parser and the growing-buffer printer are classes proved equal to a grammar of
  outcomes and to the pure text of a tree; the two undo each other up to the nesting limit (RFC 8259). `JsonSyntax` tells
  the texts themselves, as trees that keep every byte: the parser accepts exactly those, and the printer's text is the
  one in its layout, always strict JSON. The in-place minifier is proved against a cut of the text into pieces, and
  against the unformatted text.
* **JSON trees** (`SiblingList`, `JsonMeaning`, `JsonTree`). The linked lists of children act on sequences;
  comparing decides meaning; a copy is a disjoint tree of the same value.
* **Queue, line digests and their protocol** (`SpscSteps`, `SpscQueue`, `ContentLines`, `ContentReader`,
  `ContentProtocol`). The lock-free ring over every interleaving of its two threads' atomic steps; the block
  reader against whole-file line splitting; the caller and worker over every interleaving: when an assertion
  fails, and an answer for every file asked for under every fair schedule.
* **Executor** (`ExecutorSteps`, `ExecutorProgress`, `TaskExecutor`). The task list under add, get, pick, write and
  finish in any order, and what the worker's rounds get done.
* **Routes** (`RouteTree`, `RouteLookup`, `RouteBuild`, `RouteParameters`, `BlueprintMount`, `BlueprintRouting`,
  `BlueprintRequests`, `BlueprintOver`, `RouteTable`, `Router`, `ServedRequests`). The trie as linked objects and as a
  value; what registering puts in it, what looking up finds, when mounting a blueprint keeps its routing, and what every
  request is served with, told from the registrations and its text.

Classes carry the state that the source updates in place. Each of their methods is proved against a function of
the old state, and the properties are lemmas about those functions.

## Where the code does less than it might be taken to do

Each of these is a theorem with the exact condition, or an example that is proved:

* A boundary is found in every body if and only if restarting the match at a CR never misses it
  (`ExtractionIsExact`; `CrInBoundaryMisses`); a boundary without CR is such a one.
* Chunks are invisible if and only if every header name that was begun gets its colon (`ChunksAreInvisible`;
  `NameWithoutColon`).
* A file without a content type spoils the name of the part after it; a boundary is cut at a NUL by the parser but
  not by the encoder; and no form that is parsed has an empty name, a name or file name with a CR, a semicolon or an
  equals sign, or a content with the delimiter in it (`FormIsGood`). With a boundary free of CR and distinct names,
  the form's round trip loses nothing if and only if none of these comes up (`RoundTrip`; `UntypedFileSpoils`,
  `EqualsInNameSpoils`).
* A number is read up to its 63rd byte: strict JSON is read as what it means if and only if no number in it is longer
  and it is nested at most 1000 deep (`TextIsExact`, `StrictIsGood`).
* A blank or a comment put between pieces of a text does not show in the minified text if and only if it does not
  follow a slash that stands alone, which the minifier drops (`NotesAreUnseen`).
* Minifying formatted text gives the unformatted text if and only if no string or key ends in a backslash, but
  for a string that only closing brackets follow (`MinifyUnformats`; `BackslashSpoils`).
* Printing into the caller's buffer needs one byte more than the text and its NUL (`PrintPreallocated`).
* Appending to a list, and inserting past its end, do not clear the new item's `next` (`AddItemToArray`,
  `InsertItemInArray`).
* A tree with two members of one name that mean different things does not compare equal to its own copy
  (`CompareWithCopy`; `TwoOfOneName`).
* Asking for a file before the last one is answered, and polling after it is, fail an assertion; with a path and
  empty result containers given, nothing else does (`EveryRunAnswers`). A failed open or read is never answered, so it leaves the reader unusable: the next file
  asked for fails that assertion (`FailureIsFinal`; `FailedOpenStops`).
* A blank last line without a line feed is carried into the next file; its digests are right if and only if that
  file's first line is blank too (`AnswerIsTheFiles`; `CarriedBlankMisleads`).
* A comment in `file_compare/content/dc_content.h` asks that no carriage return at a line's end be digested; the
  code digests it. The lines digested are those without it if and only if no line but blank ones ends in one
  (`CrIsDigested`; `CrLine`).
* A task of an unknown type is picked once and stays running (`EveryRunIsOrderly`).
* A verb registered for `/` is kept if and only if it is that of the first registration of `/` (`VerbIsKept`;
  `SecondVerbIsLost`), and the route `//` is served if and only if `/` is not registered (`RegisteredIsServed`).
* Of two patterns below one node only the first that fits is followed (`FoundIffFits`; `SecondPatternMissed`).
* Every request found comes with its own parameters if and only if no parameter that can be followed has its name
  bound again below it (`RequestsAreBound`; `ReusedNameMisbound`).
* In an empty router and under a prefix without patterns, a mounted blueprint routes as it does itself for every
  lookup if and only if none of its routes is `/` or has an empty segment, and none of its nodes below the root has
  both children and a handler (`MountingRoutes`; `SlashBlueprintIsLost`): despite its name, `all_routes` in
  `src/core/RouteTable.h` visits leaves only, and the text it gives them does not keep empty segments. For requests,
  as the router takes their last slash off, it must also be that no parameter of the blueprint takes the request `/`
  (`MountedRequests`). A blueprint that is its root alone, under a prefix of no segments, becomes the route `/`.

## Model

| member | source | states |
|---|---|---|
| MultipartMachine.BrokenDelimiter | src/core/MultiPartParser.c:253-282 | a byte that breaks a partial delimiter is read as the first data byte after the held bytes have been reported |
| MultipartMachine.FeedAppend | src/core/MultiPartParser.c:112-330 | reading one text and then another is reading both, up to the first rejected byte, whatever state the first was left in |
| MultipartMachine.RejectedStays | src/core/MultiPartParser.c:112-330 | once a byte is rejected, nothing after it is read or reported |
| MultipartMachine.HearTwice | src/core/MultiPartParser.c:28-38 | two reports of one kind, one after the other, merge into the report of both texts |
| MultipartParser.Parser.constructor | src/core/MultiPartParser.c:80-96 | a new parser has heard nothing and waits for the first boundary |
| MultipartParser.Parser.ReadBody | src/core/MultiPartParser.c:232-251 | part data and the start of a delimiter: the fields, the lookbehind bytes and the callbacks move as the machine does |
| MultipartParser.Parser.ReadDelimiter | src/core/MultiPartParser.c:253-282 | a delimiter going on or breaking: the lookbehind bytes are replayed exactly once, and the byte is read again |
| MultipartParser.Parser.Execute | src/core/MultiPartParser.c:112-330 | one call takes as many bytes of the chunk as the machine, ends in its state, and has called back its merged trace |
| MultipartDelimiter.RestartableExtracts | src/core/MultiPartParser.c:232-282 | for a restartable boundary, the data reported for a part is exactly the bytes before its first delimiter |
| MultipartDelimiter.NotRestartableMisses | src/core/MultiPartParser.c:232-282 | for any other boundary there is a text with its first delimiter at its end after which the parser is still inside the part |
| MultipartDelimiter.NoCrIsRestartable | src/core/MultiPartParser.c:267-276 | a boundary without CR is restartable |
| MultipartDelimiter.ExtractionIsExact | src/core/MultiPartParser.c:232-282 | every part of every input is extracted exactly, if and only if the boundary is restartable |
| MultipartDelimiter.CrInBoundaryMisses | src/core/MultiPartParser.c:267-276 | the boundary of two dashes, a CR and an X is not found in every body |
| MultipartDelimiter.PartExtracted | src/core/MultiPartParser.c:232-282 | with a boundary free of CR, a body without the delimiter and then the delimiter are accepted and the body is reported byte for byte |
| MultipartChunks.AcceptanceIgnoresChunks | src/core/MultiPartParser.c:112-330 | however an input is cut, the same bytes are accepted and the parser ends in the same state |
| MultipartChunks.HeardChunks | src/core/MultiPartParser.c:165-189 | for an accepted input whose names all have a colon, any chunks give the merged trace of one call |
| MultipartChunks.SinglesHearMore | src/core/MultiPartParser.c:165-189 | for an accepted input with a name without a colon, single bytes make more of the name heard than one call does |
| MultipartChunks.ChunksAreInvisible | src/core/MultiPartParser.c:112-330 | all ways of cutting an accepted input give the same state and merged trace, if and only if every name has its colon |
| MultipartChunks.NameWithoutColon | src/core/MultiPartParser.c:165-189 | a header line with no colon: some way of cutting the input makes another trace |
| MultipartGrammar.OpeningIsExact | src/core/MultiPartParser.c:125-158 | for every boundary, a text is taken past it if and only if it begins with the boundary and CRLF; otherwise it is taken as far as it begins like them, and nothing is reported |
| MultipartGrammar.ParserReads | src/core/MultiPartParser.c:112-330 | for every restartable boundary and every text, the bytes taken, whether one is rejected, and the reports are those of a grammar: the boundary and CRLF, header lines of letters and hyphens, a body up to the first delimiter, and after it two hyphens or CRLF |
| HeaderText.SplitJoined | src/util/StrUtil.h:33-58 | splitting what was joined with a separator that no piece contains gives the pieces back |
| HeaderText.FirstPiece | src/util/StrUtil.h:33-58 | the pieces of a text are those up to the first separator and those after it |
| FormData.UserData.HandleHeader | src/core/HttpContent.cc:84-116 | the header just read changes name and file name as the model says, and is forgotten unless its name or value is empty |
| FormData.UserData.HandleDisposition | src/core/HttpContent.cc:95-112 | one piece of a Content-Disposition value sets the name, the file name or nothing |
| FormData.UserData.HandleData | src/core/HttpContent.cc:118-130 | a finished part is filed under its name with its file name and body, and everything of it is cleared |
| FormData.UserData.On | src/core/HttpContent.cc:145-198 | each callback does to the collected data what the model says for its event |
| FormData.NamesMerge | src/core/HttpContent.cc:145-152 | two name reports do the same as one of both texts, if no value is pending without a name |
| FormData.SlicesAreInvisible | src/core/HttpContent.cc:145-198 | however the parser slices its reports, the same form is collected, if every value follows a name |
| MultipartForm.ParseMultipart | src/core/HttpContent.cc:200-212 | the form is what the callbacks collect from the machine's trace for the whole body and the boundary up to its first NUL, sliced or merged, unless an exception leaves the parser; for a restartable boundary, from what the grammar says of the body |
| MultipartForm.EncodeParam | src/core/HttpMsg.cc:636-644 | appends exactly the delimiter, headers and value of a parameter |
| MultipartForm.EncodeFile | src/core/HttpMsg.cc:596-608 | appends exactly the delimiter, headers and bytes of a file |
| MultipartForm.Encode | src/core/HttpMsg.cc:556-644 | the text is that of all parameters and then all files, closed and sent exactly if there is a file |
| MultipartForm.PartTextIs | src/core/HttpMsg.cc:596-644 | the delimiter, headers and body of a parameter and of a file, byte for byte |
| MultipartForm.EncodedTextIs | src/core/HttpMsg.cc:596-644 | the text is that of its parts in order, and then the delimiter, two hyphens and CRLF |
| FormRoundTrip.EncodedTextIsHeard | src/core/HttpMsg.cc:596-644 | the parser accepts the encoder's text after its first CRLF and reports the headers and body of every part in order |
| FormRoundTrip.PartsCollected | src/core/HttpContent.cc:84-198 | the form collected is that of the parts not preceded by a file without a content type |
| FormRoundTrip.SurvivorsAreAll | src/core/HttpContent.cc:84-130 | with distinct names nothing is lost, if and only if no file but the last lacks a content type |
| FormContents.ChunkReports | src/core/MultiPartParser.c:112-330 | whatever is parsed, no header value reported has a CR, and the data of every part that is ended has no delimiter in it |
| FormContents.FormIsGood | src/core/HttpContent.cc:84-212 | whatever body a form is parsed from, its names are not empty, its names and file names have no CR, semicolon or equals sign, and its contents no delimiter |
| FormRoundTrip.RoundTrip | src/core/HttpContent.cc:84-212 | with distinct names, parsing the encoder's text gives name, file name and body of every part, if and only if the boundary has no NUL, every part's names and body are such that a form can hold them, and no part but the last is a file without a content type |
| FormRoundTrip.UntypedFileSpoils | src/core/HttpContent.cc:84-86 | two files, the first without a content type: the form is not given back |
| FormRoundTrip.EqualsInNameSpoils | src/core/HttpContent.cc:97-98 | a parameter named a=b: the form is not given back |
| FormRoundTrip.EncodeThenParse | src/core/HttpMsg.cc:556-644 | the encoder's loops and then the parser's give back the form, under that same exact condition |
| FormHeaders.NamesComparedByLetters | src/core/HttpContent.cc:87 | header names are compared by their letters, the 26 in either case |
| FormHeaders.CaseOfNamesIsFree | src/core/HttpContent.cc:84-212 | for every boundary, bodies that differ only in the case of letters in header names are taken equally far and give the same form |
| FormHeaders.DispositionIsPieces | src/core/HttpContent.cc:92-112 | for pieces written by hand, with any spaces around them and values bare or in either quotes, name and file name are the values of the last keys that begin so, without quotes; other pieces set nothing, and a lone quote throws |
| FormHeaders.HeaderByHand | src/core/HttpContent.cc:84-116 | a header in any case sets what its pieces say if it is Content-Disposition, and is forgotten in any case |
| FormHeaders.HandWrittenPart | src/core/HttpContent.cc:84-212 | a body of one part with such a header gives the form of that name, file name and content, or none without a name |
| UnicodeEscape.ParseHex4 | file_compare/common/cJSON.cc:615-650 | the number of four hexadecimal digits, and 0 if one of them is not a digit |
| UnicodeEscape.LiteralIsUtf16 | file_compare/common/cJSON.cc:652-715 | an escape with valid first digits decodes to a scalar value exactly if it is that value's UTF-16 form, so lone and wrongly paired surrogates are rejected |
| UnicodeEscape.Utf8IsShortest | file_compare/common/cJSON.cc:717-770 | the bytes of a code point decode back to it, and every other form of it is longer (section 3 of RFC 3629) |
| UnicodeEscape.MasksAreArithmetic | file_compare/common/cJSON.cc:747-765 | the encoder's masks and shifts are remainder and quotient by 64 |
| UnicodeEscape.EncodeUtf8 | file_compare/common/cJSON.cc:717-770 | writes the UTF-8 form of a code point at the output position and nothing else |
| UnicodeEscape.Utf16LiteralToUtf8 | file_compare/common/cJSON.cc:652-770 | appends the UTF-8 form of the escape and moves over it, or writes nothing for a malformed one |
| JsonString.RoundFits | file_compare/common/cJSON.cc:826-877 | one round of decoding writes no more bytes than the units the first pass counted for what it reads, also out of step with it |
| JsonString.DecodeFits | file_compare/common/cJSON.cc:786-877 | the decoded string fits in the units counted by the first pass, malformed escapes or not |
| JsonString.EscapedDecodes | file_compare/common/cJSON.cc:902-1021 | decoding the escaped form of a string gives the string, and its closing quote is the one found |
| JsonParser.ParseBuffer.SkipWhitespace | file_compare/common/cJSON.cc:1038-1061 | the offset moves over whitespace and never leaves the content |
| JsonParser.ParseBuffer.MeasureString | file_compare/common/cJSON.cc:786-822 | finds the closing quote, if there is one, and allocates a byte more than the units counted |
| JsonParser.ParseBuffer.DecodeString | file_compare/common/cJSON.cc:826-885 | every byte is written inside the allocation, the input pointer stops at most one past the closing quote, and the output is the decoded string |
| JsonParser.ParseBuffer.ParseString | file_compare/common/cJSON.cc:773-900 | same verdict, string and offset as the grammar |
| JsonParser.ParseBuffer.ParseNumber | file_compare/common/cJSON.cc:305-380 | same verdict, number and offset as the grammar |
| JsonParser.ParseBuffer.ParseValue | file_compare/common/cJSON.cc:1312-1364 | same verdict, tree and offset as the grammar at this depth |
| JsonParser.ParseBuffer.ParseArray | file_compare/common/cJSON.cc:1441-1536 | same, for arrays, although the loop steps the offset back before each item |
| JsonParser.ParseBuffer.ParseObject | file_compare/common/cJSON.cc:1601-1711 | same, for objects, with duplicate keys and their order kept |
| JsonParser.ParseBuffer.Parse | file_compare/common/cJSON.cc:1079-1172 | same, for a whole text with its mark, whitespace and end |
| JsonPrinter.PrintBuffer.Ensure | file_compare/common/cJSON.cc:439-522 | succeeds exactly if there can be room; then the region is granted and the text so far is kept |
| JsonPrinter.PrintBuffer.UpdateOffset | file_compare/common/cJSON.cc:525-535 | the offset moves to the NUL after the text just printed |
| JsonPrinter.PrintBuffer.CountEscapes | file_compare/common/cJSON.cc:926-957 | the predicted length is the length of the escaped string |
| JsonPrinter.PrintBuffer.PrintString | file_compare/common/cJSON.cc:902-1021 | the quoted string is written inside the granted region, which is exactly as long |
| JsonPrinter.PrintBuffer.PrintNumber | file_compare/common/cJSON.cc:545-612 | the decimal text of an integer is written, with a NUL |
| JsonPrinter.PrintBuffer.PrintArray | file_compare/common/cJSON.cc:1539-1598 | the text of the array is written, if there is room for it and two bytes |
| JsonPrinter.PrintBuffer.PrintObject | file_compare/common/cJSON.cc:1714-1825 | the text of the object is written, if there is room for it and two bytes |
| JsonPrinter.PrintBuffer.PrintValue | file_compare/common/cJSON.cc:1367-1438 | from any offset and capacity, succeeds exactly if there is or can be room, and then has written exactly the text of the value and a NUL |
| JsonApi.Print | file_compare/common/cJSON.cc:1187-1250 | gives exactly the text and its NUL, if they and one byte more fit in an int |
| JsonApi.PrintBuffered | file_compare/common/cJSON.cc:1262-1290 | the same text from any starting capacity |
| JsonApi.PrintPreallocated | file_compare/common/cJSON.cc:1292-1309 | succeeds exactly if the caller's buffer has two bytes more than the text |
| JsonApi.PrintThenParse | file_compare/common/cJSON.cc:1079-1364 | printing and then parsing gives the tree back, if and only if it is nested at most 1000 deep |
| JsonRoundTrip.ValueBack | file_compare/common/cJSON.cc:1312-1825 | the text of a value inside a larger text is read back whole, at any depth that leaves room for its nesting |
| JsonRoundTrip.ParsedIsShallow | file_compare/common/cJSON.cc:1441-1452 | no text whatever is read as a tree nested deeper than the limit |
| JsonRoundTrip.PrintedTextParsesBack | file_compare/common/cJSON.cc:1312-1825 | the printed text, formatted or not, parses to the tree and to its own end, if and only if the tree is nested at most 1000 deep |
| JsonRoundTrip.PrintingIsInjective | file_compare/common/cJSON.cc:1367-1825 | no two trees within the limit print alike |
| JsonLiterals.LiteralRead | file_compare/common/cJSON.cc:773-900 | a literal spelled by any bytes, the eight short escapes, escapes of a code unit or a surrogate pair in either case, and escapes with bad digits is read as their joined meanings up to a NUL |
| JsonLiterals.ReadLiteral | file_compare/common/cJSON.cc:773-900 | whatever is read as a string is such a literal with that meaning |
| JsonLiterals.OtherEscapesFail | file_compare/common/cJSON.cc:832-875 | behind any units, a backslash and any other byte fail, at the backslash |
| JsonLiterals.NumeralRead | file_compare/common/cJSON.cc:305-380 | a numeral with or without fraction and power that cannot be longer is read as its size, cut to an integer and held to 32 bits |
| JsonLiterals.ReadNumeral | file_compare/common/cJSON.cc:305-380 | whatever is read as a number is the longest numeral of at most 63 bytes there, with that value |
| JsonExact.ValueIsExact | file_compare/common/cJSON.cc:1312-1711 | a value is read at a place, to a place and as a tree, if and only if a text of the grammar that means it stands there and is not nested too deep |
| JsonExact.TextIsExact | file_compare/common/cJSON.cc:1063-1172 | a text is read as a tree if and only if it begins with a byte order mark or none, a gap of bytes up to the space, and a value of the grammar that means it, nested at most 1000 deep |
| JsonExact.WholeTextIsExact | file_compare/common/cJSON.cc:1079-1172 | with the demand for the end, if and only if moreover nothing but such bytes follows |
| JsonStrict.DecimalIsOnly | file_compare/common/cJSON.cc:565-568 | the printed form of an integer is the only text of an optional minus and digits without a leading zero that stands for it |
| JsonStrict.PrintedTextIsOnly | file_compare/common/cJSON.cc:1367-1825 | the printed text is the only one that means the tree in the layout told gap by gap, lines, tabs by depth, and what follows colons and commas, and it is strict JSON |
| JsonStrict.StrictIsGood | file_compare/common/cJSON.cc:305-380 | all of strict JSON is in the parser's grammar, but for numbers of more than 63 bytes |
| JsonMinify.SkipMultilineComment | file_compare/common/cJSON.cc:2802-2814 | goes past the comment's end, or to the end of the text |
| JsonMinify.MinifyString | file_compare/common/cJSON.cc:2816-2836 | copies a string in place to where the minifier takes it to end, never writing past the read position |
| JsonMinify.Minify | file_compare/common/cJSON.cc:2838-2884 | rewrites the buffer to the minified text and a NUL, the write position never passing the read position; what is left is what is to be kept of the text's pieces |
| MinifiedText.MinifiedIsExact | file_compare/common/cJSON.cc:2789-2884 | every text is cut into kept bytes, blanks, lone slashes, comments and strings, and the minified text is its strings and kept bytes, in order and as they are |
| MinifiedText.NoteIsUnseen | file_compare/common/cJSON.cc:2789-2884 | a blank, a block comment or a line comment put outside strings, and not after a lone slash, leaves the minified text as it was, whatever follows |
| MinifiedText.NotesAreUnseen | file_compare/common/cJSON.cc:2851-2871 | all of them do after given pieces, if and only if those do not end in a lone slash |
| MinifyCorrect.StringMinified | file_compare/common/cJSON.cc:2816-2836 | a printed string is copied whole, and left at its end exactly if it does not end in a backslash |
| MinifyCorrect.MinifyUnformats | file_compare/common/cJSON.cc:2838-2884 | minifying the formatted text gives the unformatted text, if and only if no string or key ends in a backslash but one that only closing brackets follow |
| MinifyCorrect.BackslashSpoils | file_compare/common/cJSON.cc:2830 | an array of a string that is a backslash and a null: minifying does not give the unformatted text |
| MinifyCorrect.PrintedThenMinified | file_compare/common/cJSON.cc:2838-2884 | the in-place minifier on a buffer with the formatted text leaves the unformatted text, under that same condition |
| SiblingList.GetArrayItem | file_compare/common/cJSON.cc:1851-1868 | the item at an index of the abstract list, or none |
| SiblingList.AddItemToArray | file_compare/common/cJSON.cc:1956-1987 | appends; the list is well formed afterwards if and only if it was empty or the item pointed to nothing |
| SiblingList.DetachItemViaPointer | file_compare/common/cJSON.cc:2187-2221 | removes the item at its position, keeps the list well formed, and leaves the item unlinked |
| SiblingList.InsertItemInArray | file_compare/common/cJSON.cc:2263-2290 | inserts at the index whatever the new item points to; past the end it appends, and the list is well formed if and only if it was empty or the item pointed to nothing; a negative index changes nothing |
| SiblingList.ReplaceItemViaPointer | file_compare/common/cJSON.cc:2292-2339 | updates the list at the item's position, and leaves the item unlinked |
| JsonMeaning.CoverBothWays | file_compare/common/cJSON.cc:3068-3104 | the two loops over members succeed if and only if both objects are consistent and mean the same, order ignored; with elements that only mean the same, so do the objects |
| JsonMeaning.ItemsMeaning | file_compare/common/cJSON.cc:3044-3066 | arrays mean the same if and only if they are equally long and their elements do one by one, with consistency asked for or not |
| JsonMeaning.UniqueIsConsistent | file_compare/common/cJSON.cc:3068-3104 | a tree whose objects have no name twice is consistent |
| JsonMeaning.IntsCompareExactly | file_compare/common/cJSON.cc:538-542 | for 32-bit integers the relative tolerance makes no difference |
| JsonMeaning.NamesAreLetters | file_compare/common/cJSON.cc:133-154 | names are the same byte by byte, or, case ignored, letter by letter for the 26 letters |
| JsonTree.GetObjectItem | file_compare/common/cJSON.cc:1880-1910 | the first child of a name, case-sensitive or not, or none |
| JsonTree.Compare | file_compare/common/cJSON.cc:2986-3109 | trees that compare equal mean the same, consistent trees that mean the same compare equal, and for trees without a common node it is true exactly for those; an item equals itself |
| JsonTree.Duplicate | file_compare/common/cJSON.cc:2706-2787 | a well-formed tree of new items with the same value and name, or the item alone without children |
| JsonTree.CompareWithCopy | file_compare/common/cJSON.cc:2706-3109 | a tree compares equal to its copy if and only if it is consistent |
| JsonMeaning.TwoOfOneName | file_compare/common/cJSON.cc:3068-3104 | an object with one name twice, for 1 and 2, is not consistent |
| SpscSteps.ProduceInv | file_compare/diff/chan.h:21-43 | every atomic step of a push keeps the ring's invariant |
| SpscSteps.ConsumeInv | file_compare/diff/chan.h:45-61 | every atomic step of a read keeps it |
| SpscSteps.EveryRunIsFifo | file_compare/diff/chan.h:10-61 | in every interleaving nothing is overwritten unpopped or read unwritten, the pushed values are the popped ones and then those in [tail, head), and at most max(cap, 3) wait |
| SpscSteps.MissMeansEmpty | file_compare/diff/chan.h:45-51 | a read finds nothing if and only if everything pushed has been popped |
| SpscSteps.SpinsWhileFull | file_compare/diff/chan.h:35-37 | the producer goes on waiting exactly while all slots but one are taken |
| SpscSteps.SpinsAtCapacity | file_compare/diff/chan.h:10-37 | in every run the producer waits exactly while max(cap, 3) values are not popped yet |
| SpscQueue.Queue.constructor | file_compare/diff/chan.h:10-12 | an empty ring of max(cap + 1, 4) slots |
| SpscQueue.Queue.Produce | file_compare/diff/chan.h:21-43 | the producer's next step on the ring's fields is the model's |
| SpscQueue.Queue.Consume | file_compare/diff/chan.h:45-61 | the consumer's next step on the ring's fields is the model's |
| SpscQueue.Queue.Push | file_compare/diff/chan.h:21-43 | run alone with room, appends the value |
| SpscQueue.Queue.ReadOnce | file_compare/diff/chan.h:83-96 | run alone, gives and removes the oldest value, or finds nothing if and only if there is none |
| SpscQueue.Queue.Perform | file_compare/diff/chan.h:10-61 | any interleaving on the fields is the model's run |
| ContentLines.BlocksJoin | file_compare/content/dc_content.cc:435-462 | where the blocks of a file are cut makes no difference to the tally |
| ContentLines.TallyIsFileLines | file_compare/test_file_sha1.cc:39-69 | the lines digested and the blank ones counted are those of getline over the carry and the whole file |
| ContentLines.CarryLeft | file_compare/content/dc_content.cc:557-568 | a file leaves its unfinished last line in the carry if and only if it is blank |
| ContentLines.StaleCarry | file_compare/content/dc_content.cc:408-433 | a blank carry does not change a file's lines if and only if the file's first line is blank too |
| ContentLines.CrIsDigested | file_compare/content/dc_content.cc:435-462 | the lines digested are those without a carriage return at their end, if and only if no line but blank ones ends in one; the count of blank lines is the same |
| ContentLines.CrLine | file_compare/content/dc_content.cc:435-462 | of "a", CR, LF both bytes before the line feed are digested |
| ContentLines.LinesAreRead | file_compare/test_file_sha1.cc:39-69 | lines that end in a line feed, and perhaps one more, are the lines of the file |
| ContentLines.KeptInPlace | file_compare/content/dc_content.cc:393-433 | wherever it stands, a line with a byte that is none of the six blanks is kept in its place, and any other is counted |
| ContentReader.Content.CheckIsEmptyLine | file_compare/content/dc_content.cc:393-406 | whether a line is all whitespace |
| ContentReader.Content.ComputeSha1OfSingleLine | file_compare/content/dc_content.cc:408-433 | the carry and the line are digested as one line or counted as blank, and the carry is cleared |
| ContentReader.Content.ComputeSha1ByLines | file_compare/content/dc_content.cc:435-462 | the block's lines are tallied and its tail is carried over |
| ContentReader.Content.FileContentRead | file_compare/content/dc_content.cc:503-583 | one read tallies one block, or ends the file and closes it |
| ContentReader.Content.ReadAll | file_compare/content/dc_content.cc:503-583 | for every block size of at least one, the digests and the blank count are those of whole-file splitting |
| ContentReader.ReadProgress | file_compare/content/dc_content.cc:503-583 | a read keeps the tally of the rest of the file, and reports the end exactly when all of it is tallied |
| ContentProtocol.AskInv | file_compare/content/dc_content.cc:115-133 | asking for a file keeps the protocol's invariant, and fails its assertion exactly if the last file is not answered |
| ContentProtocol.PollInv | file_compare/content/dc_content.cc:135-205 | a poll keeps it, and fails its assertion exactly if all files are answered |
| ContentProtocol.CallerInv | file_compare/content/dc_content.cc:135-205 | every further step of the caller keeps it and fails no assertion |
| ContentProtocol.WorkerInv | file_compare/content/dc_content.cc:207-242 | every step of the worker keeps it and fails no assertion, whether its system call succeeds or not |
| ContentProtocol.EveryRunAnswers | file_compare/content/dc_content.cc:115-242 | in every interleaving an assertion fails if and only if a file is asked for before the last is answered or polled for after it is, at most one command or reply is about and one exactly while the state says so, and each answer is that of its file and the carry |
| ContentProtocol.FailureIsFinal | file_compare/content/dc_content.cc:135-195 | once a system call has failed nothing changes any more, whatever the threads do, but that asking for a file fails an assertion |
| ContentProtocol.FailedOpenStops | file_compare/content/dc_content.cc:115-152 | a file that cannot be opened, and then another one asked for |
| ContentProtocol.AskedIsAnswered | file_compare/content/dc_content.cc:115-242 | while no system call fails, under every schedule in which both threads keep getting turns, every file asked for is answered once, its descriptor closed and all of it read; and within a bounded number of turns if they get them regularly |
| ContentProtocol.AnswerIsTheFiles | file_compare/content/dc_content.cc:524-568 | the answer is that of the file alone if and only if nothing was carried into it or its first line is blank |
| ContentProtocol.CarriedBlankMisleads | file_compare/content/dc_content.cc:557-568 | a file of one space, and then one with a line: the answer is not that of the second alone |
| ExecutorSteps.OverIsPicked | file_compare/internal/dc_internal_task.cc:37-47 | what is taken out is never the task the worker holds, nor one not yet picked |
| ExecutorSteps.PickIsNext | file_compare/internal/dc_internal_task.cc:61-75 | tasks are picked in the order they were added, each of them |
| ExecutorSteps.StepConserves | file_compare/internal/dc_internal_task.cc:26-50 | each operation keeps, for every uuid, its delivered tasks and then its listed ones equal to those added |
| ExecutorSteps.EveryRunIsOrderly | file_compare/internal/dc_internal_task.cc:26-80 | in every interleaving the list reads over, then what the worker holds, then all not yet picked; only tasks of unknown type stay running; results are delivered in order, each once |
| ExecutorSteps.GetGivesNext | file_compare/internal/dc_internal_task.cc:33-50 | a get gives the uuid's next result if that task is over, and finds nothing if and only if none is left |
| ExecutorProgress.AddedInOrder | file_compare/internal/dc_internal_task.cc:26-31 | in every interleaving the tasks added are those the calls asked for, in order, and what is listed of them has their uuid and type |
| ExecutorProgress.RoundsFinish | file_compare/internal/dc_internal_task.cc:52-80 | as many rounds of the worker as tasks are waiting set over every one of them whose type is known, with the result written in its round, and change nothing else |
| ExecutorProgress.WorkIsDelivered | file_compare/internal/dc_internal_task.cc:33-80 | after them a get finds the uuid's first listed task over and gives its result, unless its type is not known |
| TaskExecutor.TaskList.Add | file_compare/internal/dc_internal_task.cc:26-31 | the list of task objects changes as the model says, and the worker's reference stays in it |
| TaskExecutor.TaskList.Get | file_compare/internal/dc_internal_task.cc:33-50 | reply, list and deliveries are the model's |
| TaskExecutor.TaskList.HasTaskToRun | file_compare/internal/dc_internal_task.cc:52-59 | whether any task is not yet picked |
| TaskExecutor.TaskList.Pick | file_compare/internal/dc_internal_task.cc:61-75 | the first task not yet picked is set running and held, as in the model |
| TaskExecutor.TaskList.SetTaskOver | file_compare/internal/dc_internal_task.cc:77-80 | the held task, still in the list, is set over |
| RouteLookup.FoundFits | src/core/RouteTable.cc:51-145 | what a lookup finds is in the trie, and its keys match the request's parts in turn and end at its end, at a leaf or at a star |
| RouteLookup.FittingIsFound | src/core/RouteTable.cc:51-145 | if a path fits that takes the first fitting pattern wherever it takes one, the lookup finds it or one before it |
| RouteLookup.FoundIffFits | src/core/RouteTable.cc:51-145 | a lookup finds something if and only if such a path fits, and it finds the first of them, exact names before patterns |
| RouteLookup.OnePatternFindsAll | src/core/RouteTable.cc:104-143 | with at most one pattern to a node, a lookup finds something if and only if any path fits |
| RouteLookup.OwnPathIsFound | src/core/RouteTable.cc:104-113 | a request for a node's own path finds it and binds nothing, whatever patterns stand beside it |
| RouteParameters.FoundIsBound | src/core/RouteTable.cc:131-142 | if no followable parameter's name is bound again below it, what is found comes with its parameters, whatever branches were given up |
| RouteParameters.MisboundFinds | src/core/RouteTable.cc:116-143 | otherwise a request made from the trie is found, with the wrong value for a parameter on its path |
| RouteParameters.RequestsAreBound | src/core/RouteTable.cc:51-145 | after any registrations, all requests that are found come with their parameters, if and only if no followable parameter's name is bound again below it |
| RouteParameters.SecondPatternMissed | src/core/RouteTable.cc:116-143 | /{a}/x and /{b}/y registered: /1/y fits the second and is not found |
| ServedRequests.FoundIsFirst | src/core/RouteTable.cc:51-145 | what a lookup finds is the first path in a total order of those that fit: ending where it can, the part's own name, then the first pattern; and nothing is found only if none fits |
| ServedRequests.FoundMatch | src/core/RouteTable.cc:116-129 | the match path is the request from the part that the star takes to its end, and empty if no star takes one |
| ServedRequests.BracedIsParam | src/core/RouteTable.cc:131-140 | a key is a parameter if something is between its braces, and its name is that without spaces around it |
| ServedRequests.PatternsAre | src/core/RouteTable.cc:118-132 | a star pattern fits a part that begins with the text in front of the star |
| ServedRequests.LessIs | src/base/StringPiece.h:127-133 | keys stand in the order of their first differing byte, a prefix first |
| ServedRequests.PartsAreText | src/core/RouteTable.cc:92-102 | the parts of a request, a slash in front of each, are its text, and after each comes the rest of the request as it was sent |
| ServedRequests.KeysAreText | src/core/RouteTable.cc:27-41 | the keys of a route, a slash in front of each, are its text without a last slash |
| RouteParameters.ReusedNameMisbound | src/core/RouteTable.cc:140-141 | /{a}/x/{a}/q and /{a}/{b}/1/r registered: /v/x/1/r finds the second with the value that the first, given up, has left |
| RouteBuild.AtInserted | src/core/RouteTable.cc:14-49 | registering makes the nodes on the way and changes only the handler at the end |
| RouteBuild.TrieIsRegistered | src/core/RouteTable.cc:14-49 | after any registrations the trie has exactly the nodes on the way to a registered route, in key order, each with the handler its own registrations come to |
| RouteBuild.FirstWins | src/core/Router.cc:11-24 | the handler registered first for a route and a verb stays |
| RouteBuild.RegisteredRouteIsFound | src/core/RouteTable.cc:27-113 | after any registrations in any order, a registered route's own text, with a last slash or without, finds its node and binds nothing, if and only if it is not // with / registered too |
| RouteBuild.PartsAreSlashedKeys | src/core/RouteTable.cc:27-38 | the parts of a request are the keys that it and a last slash are registered under |
| RouteBuild.VerbIsKept | src/core/RouteTable.cc:20-25 | a registered verb is in its route's handler, if and only if the route is not / or the first registration of / is for it |
| RouteBuild.FoundIsRegistered | src/core/RouteTable.cc:51-145 | every node found after any registrations lies on a registered route and fits the request |
| BlueprintMount.KeysAppended | src/core/RouteTable.cc:14-49 | the keys of a prefix that ends in a slash and of any text after it are the prefix's keys and then those from the slash on |
| BlueprintMount.PartsAppended | src/core/RouteTable.cc:92-102 | the parts of a prefix and then a request are the prefix's keys and then the request's own parts |
| BlueprintMount.MountIsFiling | src/core/BluePrint.cc:290-311 | mounting a subtree's routes as text is filing its leaves under the prefix's keys and its own path, if no key is empty or has a slash |
| BlueprintRouting.MountedTrie | src/core/BluePrint.cc:290-311 | in an empty router the result is exactly the blueprint under the prefix with its leaves' handlers, if no route is / or has an empty segment |
| BlueprintRouting.SilentAgrees | src/core/BluePrint.cc:290-311 | where the condition below holds, every lookup below the prefix agrees with the blueprint's in path, parameters, match path and handlers |
| BlueprintRequests.SomeIsLost | src/core/RouteTable.h:59-74 | where it does not, there is a request that the blueprint serves and that no lookup in the mounted router answers alike |
| BlueprintRequests.MountingRoutes | src/core/BluePrint.cc:290-311 | for every blueprint that can be registered and every prefix without patterns, all lookups below the prefix agree with the blueprint's, if and only if no route is / or has an empty segment, no node below the root has both children and a handler, and it is not its root alone under a prefix of no segments |
| BlueprintRequests.MountedRequests | src/core/Router.cc:26-73 | the same for all requests with their last slash taken off, if and only if moreover no parameter of the blueprint takes the request /, or the prefix has no segments |
| BlueprintRequests.SlashBlueprintIsLost | src/core/BluePrint.cc:295-299 | the route / alone, mounted under /api: neither /api nor /api/ is found |
| BlueprintOver.MountedOver | src/core/BluePrint.cc:290-311 | over whatever a router has, each path gets the handler of the last listed route filed under it, with the text it was mounted with, and keeps its own else |
| RouteTable.RouteTableNode.Register | src/core/RouteTable.cc:14-49 | finding or creating a node among linked nodes, and updating its handler, changes the trie as the model says |
| RouteTable.RouteTableNode.Find | src/core/RouteTable.cc:51-145 | the search over linked nodes gives the model's path and bindings, and the node that stands there |
| RouteTable.RouteTableNode.AllRoutes | src/core/RouteTable.h:59-74 | the leaves' texts and handlers, in key order |
| Router.Router.Handle | src/core/Router.cc:11-24 | a registration changes the trie as the model says |
| Router.Router.HandleAll | src/core/Router.cc:11-24 | registrations in order build the trie whose contents are characterised above |
| Router.Router.Find | src/core/RouteTable.h:82-85 | a table lookup finds the node at the model's path |
| Router.Router.Call | src/core/Router.cc:26-73 | the response is what the model serves, which `RequestIsServed` tells from the registrations |
| Router.Router.AddBlueprint | src/core/BluePrint.cc:290-312 | mounts every listed route of the blueprint, in order |
| Router.RegisteredIsServed | src/core/Router.cc:11-73 | after any registrations, a request for a registered route, or for it and a last slash, runs the handler first registered for it and its verb, if and only if it is not // with / registered too |
| Router.SecondVerbIsLost | src/core/RouteTable.cc:20-25 | / registered for GET and then POST: POST is not implemented |
| ServedRequests.HandlerIs | src/core/Router.cc:11-24 | each verb of a route's node has the handler registered first for it |
| ServedRequests.HandlerPathIs | src/core/Router.cc:11-24 | the path and the queue are those of the last registration that was not refused |
| ServedRequests.RequestIsServed | src/core/Router.cc:26-73 | after any registrations, a request is not found if and only if no path fits it by first patterns; else it is served along the first that does, by the verb's handler, else that of ANY, else not implemented, each parameter bound to its own part if no name is bound again below it, and the match path the request's text from the star's part to its end |

## Left out

* Multipart callbacks that return non-zero and abort the parser: the repository's own always return 0. The
  callbacks are run over the recorded trace after the parser's call; they do not act on the parser.
* The parser's uninitialized state, which no call reaches, and an empty boundary: `--` is always put in front.
* A quoted value that is a lone quote: taking the quotes off underflows a length; `TrimPairs` gives no result, and
  the form none.
* Files that cannot be read by the encoder, and its tasks and series: files come with their bytes.
* JSON numbers with fractions or beyond 32 bits: a number is its `valueint`; decimal text is read exactly and cut
  to an integer, and double rounding and `%g` are not modelled.
* JSON strings are C strings, cut at a NUL; texts end in a NUL, as `cJSON_Parse` hands them over.
* Raw nodes, reference nodes, allocator hooks, failing allocations, NULL strings and `size_t` wrap-around.
* The parser and the printer work on trees as values; the linked form of a tree is modelled for the sibling-list
  operations, `Duplicate` and `Compare`.
* ParseHex4: reads past the end of the buffer are excluded by its callers, which have checked the length.
* GetObjectItem: a child without a name is one with the empty name; the NULL name is not modelled.
* AddItemToArray, GetArrayItem, Duplicate: NULL arguments, for which the source returns at once.
* DetachItemViaPointer, ReplaceItemViaPointer: NULL arguments, and freeing the item that was replaced.
* `SPSCQueue::size`, whose sign test never holds; memory orders below "a release store publishes what was written
  before it"; destroying a queue that is not empty.
* The queues of the protocol are sequences; the ring is proved to be one, and never holds more than one token.
* EveryRunAnswers, WorkerInv: the path asked for is not empty, and the caller gives empty result containers, which the
  worker asserts too.
* Read errors other than the one reply they give; a read that falls short before the end of the file; the MD5
  value, which is of the last block only. SHA-1 is an arbitrary function of a line.
* Thread start and shutdown, `exit_`, and the file and directory attributes.
* The executor's directory walk: what it writes into a task is arbitrary.
* ParserReads: boundaries that are not restartable; for them `NotRestartableMisses` gives a body that is read otherwise.
* OnePatternFindsAll: one way only. Which other tries miss no fitting request is an inclusion between sets of
  requests, settled for each request by `FoundIffFits`.
* MountingRoutes, MountedRequests: prefixes with patterns, under which a request is not its own prefix any more.
* RoundTrip: boundaries with a CR, two parts of one name, and content types with a CR or a leading space, of which the
  encoder's table has none.
* A route parameter whose name is all spaces, for which the source computes a negative length.
* The set of routes kept for listing, the tasks of a handler, NULs inside routes.
* Register: the node is found and its handler updated in one call, where the source returns a reference to the
  handler for the caller to update.
* AOP wrappers, verb overloads, cookies, base64, URL decoding, comparing and differencing directories: easy, or
  foreign code.
