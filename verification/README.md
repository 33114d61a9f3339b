# Models of httplib, libconfig and the character server

This project models five parts of the repository and proves what they promise.

- **Stream formats of httplib.** The multipart/form-data parser with its sliding buffer, and the serializer
  (`Multipart*.dfy`); chunked transfer framing over a buffered socket (`Chunked*.dfy`); query strings (`Query*.dfy`);
  base64 (`Base64.dfy`).
- **Concurrency of httplib.** The thread pool (`ThreadPool.dfy`) and the client's shared socket (`ClientSocket.dfy`),
  each as labelled steps over any number of threads.
- **libconfig.** Values and tokens (`ConfigValue.dfy`), the lexical grammar and the scanner (`ConfigLexer.dfy`,
  `ConfigLexemes.dfy`, `ConfigScanner.dfy`), the setting tree (`ConfigTree.dfy`), the grammar as derivations and as a
  parser with semantic actions (`ConfigSyntax.dfy`, `ConfigGrammar.dfy`, `ConfigParser.dfy`), the writer
  (`ConfigWriter.dfy`), the round trip (`ConfigRoundTrip.dfy`), path lookup (`ConfigLookup.dfy`) and the storage
  underneath (`ConfigStorage.dfy`).
- **Diff-style persistence of the character server.** Item saves (`ItemSave.dfy`, `ItemMatching.dfy`), achievement saves
  (`Achievement.dfy`) and the slot cache of a session (`SlotCache.dfy`). An SQL table is a map from row keys to rows and
  each statement is a step on it.
- **The auction house** (`Auction.dfy`), with escrowed zeny, items and timers.

`Text.dfy`, `Numerals.dfy` and `MapTotals.dfy` are shared.

Code that the sources run in place (buffers, arrays, cached fields, token loops) is written as classes and methods with
loops. Each method is proved against a specification function, and the laws are lemmas about that function, over every
input, every interleaving or every run. A byte is a `char`; C++ strings are Dafny strings.

Some laws that one might expect do not hold of the code as it stands; the model keeps the code, and the lemmas say
exactly when the law holds:

- a multipart parser drops a first chunk that is shorter than the first boundary line
  (`MultipartLateStart.RoundTripExactlyWhen`, `MultipartLateStart.CutAfterFirstByte`);
- a chunked body counts as complete when something else than a line end follows a chunk
  (`Chunked.SucceedsExactlyWhen`, `Chunked.CutOffChunkSucceeds`), and a provider that ends with an empty write never
  sends the last chunk (`Chunked.RoundTripExactlyWhen`);
- a nested request clears a pending stop, and the socket can be left open (`ClientSocket.StopHonouredExactlyWhen`,
  `ClientSocket.ForgottenStop`);
- a setting called `true` or `false` can be added and written, but the file cannot be read back
  (`ConfigRoundTrip.ConfigRoundTripsExactlyWhen`);
- a line comment on a last line without a line end is not a comment (`ConfigLexemes.LineCommentsAddNothing`);
- a repeated parameter pair is dropped when a query is parsed (`Query.QueryRoundTripsExactlyWhen`);
- a path that ends in a bare `[` can find the setting before it (`ConfigLookup.LookupFollowsExactlyWhen`);
- entries that agree in the match columns but differ elsewhere make every second save write again
  (`ItemSave.SaveIsIdempotentExactlyWhen`);
- a failed achievement insert is reported as success when old entries remain to be erased
  (`Achievement.SaveOutcome`, `Achievement.RepeatedEntryLosesProgress`);
- a new character takes over the cached slot changes of its slot (`SlotCache.NewCharacterInheritsMoves`);
- a bid accepted from character 0 is lost from the books unless it buys the item out (`Auction.BidsFromNobody`).

## Model

| member | source | states |
|---|---|---|
| `MultipartLateStart.RoundTripExactlyWhen` | 3rdparty/httplib/httplib.cc:1940-2218 | for every non-empty list of printable items and every cutting of the serialized text into chunks, empty ones included: parsing ends valid with an empty buffer and reports exactly the items, in order, if and only if the first chunk that is not empty holds the whole first boundary line |
| `MultipartLateStart.CutAfterFirstByte` | 3rdparty/httplib/httplib.cc:1963-1971 | cut after its first byte, no printed form at all is read back |
| `MultipartLateStart.LateNeverDelivers` | 3rdparty/httplib/httplib.cc:1952-2058 | a parser that has passed the start of the first boundary line without finding it never reports the printed items, wherever it starts later and however the rest is cut |
| `MultipartLateStart.LateFirstLine` | 3rdparty/httplib/httplib.cc:1944-1948 | in a printed form the boundary line occurs again no earlier than at the end of the first item's headers |
| `MultipartLateStart.NoDelimiterInHeaders` | 3rdparty/httplib/httplib.cc:2182-2218 | after the delimiter before an item no delimiter occurs before the empty line of that item |
| `MultipartRoundTrip.RoundTrip` | 3rdparty/httplib/httplib.cc:1940-2218 | for every non-empty list of printable items and every cutting of the serialized text into chunks whose first holds the first boundary line, parsing ends valid with an empty buffer and reports exactly the items (name, filename, content type, content), in order |
| `MultipartRoundTrip.ShortFirstChunkIsDropped` | 3rdparty/httplib/httplib.cc:1963-1971 | a first chunk shorter than the first boundary line is thrown away: parsing goes on as if it had never come |
| `MultipartRoundTrip.DelimiterHasNoBorder` | 3rdparty/httplib/httplib.cc:1944-1948 | the delimiter line break, two dashes, boundary has no proper border, because its carriage return occurs only at its start |
| `MultipartRoundTrip.FirstDelimiter` | 3rdparty/httplib/httplib.cc:2010-2018 | in content that does not contain the delimiter, followed by the delimiter, the first occurrence is the one after the content |
| `MultipartRoundTrip.DispositionIsRead` | 3rdparty/httplib/httplib.cc:1955-1958 | the written disposition line is matched by the header expression with exactly the written name and filename |
| `MultipartRoundTrip.SerializeMultipartFormdata` | 3rdparty/httplib/httplib.cc:2194-2218 | the loop over the items writes exactly the specified text |
| `MultipartStream.BodyStream` | 3rdparty/httplib/httplib.cc:2010-2033 | while the delimiter has not come, for any chunks, the content callbacks get a prefix of the content, in order and once, and at most one delimiter length is held back |
| `MultipartStream.BodyEnds` | 3rdparty/httplib/httplib.cc:2010-2033 | when the delimiter first occurs at q, the callbacks have got exactly the bytes before q, whatever the chunks were |
| `MultipartStream.MultipartFormDataParser.BufFind` | 3rdparty/httplib/httplib.cc:2102-2123 | the nested search loop returns the first occurrence in the window, or the window size |
| `MultipartStream.MultipartFormDataParser.ShiftToFront` | 3rdparty/httplib/httplib.cc:2125-2131 | the in-place copy moves the unread window to the front of the same buffer |
| `MultipartStream.MultipartFormDataParser.BufAppend` | 3rdparty/httplib/httplib.cc:2125-2141 | after the shift and the resize the window is the old window followed by the new bytes, and the offsets are in bounds |
| `MultipartStream.MultipartFormDataParser.BufErase` | 3rdparty/httplib/httplib.cc:2143 | drops a prefix of the window |
| `MultipartStream.MultipartFormDataParser.InitialBoundary` | 3rdparty/httplib/httplib.cc:1964-1971 | state 0 refines the specified step: skip to the first boundary line, keep waiting or fail |
| `MultipartStream.MultipartFormDataParser.Headers` | 3rdparty/httplib/httplib.cc:1977-2009 | state 2 refines the specified header loop, including the length limit, the refusing callback and the half-read headers; what that loop makes of any header lines is HeadersInAnyOrder |
| `MultipartHeaders.HeadersInAnyOrder` | 3rdparty/httplib/httplib.cc:1977-2009 | for every list of header lines below the limit, in any order: the header callback gets the content type of the last content-type line, or none, and the name and filename of the last matching disposition line, or none; every other line changes nothing |
| `MultipartHeaders.TypeIsRead` | 3rdparty/httplib/httplib.cc:1994-1996 | the field name of a content type may be in any case, and blanks around the value are dropped |
| `MultipartHeaders.DispositionInAnyForm` | 3rdparty/httplib/httplib.cc:1955-2003 | every disposition line of a form is matched: its fields in any case, any spaces between them, with or without a filename and an extended filename |
| `MultipartOutcomes.ValidOnlyWhenClosed` | 3rdparty/httplib/httplib.cc:1952-2058 | for every text, chunks and callbacks: a form is valid only if its text holds a delimiter with the closing dashes and line break behind it |
| `MultipartOutcomes.RefusalCutsShort` | 3rdparty/httplib/httplib.cc:1982-2031 | a parse whose callbacks refuse call n stops there with a failure, is not valid and has made exactly the calls before; if call n is never made the refusal changes nothing |
| `MultipartOutcomes.LongFirstLineIsRefused` | 3rdparty/httplib/httplib.cc:1978-1992 | a form whose first header line is longer than 8192 characters is refused, however its text is cut |
| `MultipartStream.MultipartFormDataParser.Body` | 3rdparty/httplib/httplib.cc:2010-2033 | state 3 refines the specified step: deliver up to the delimiter, or all but a delimiter length |
| `MultipartStream.MultipartFormDataParser.Boundary` | 3rdparty/httplib/httplib.cc:2034-2053 | state 4 refines the specified step: next entry, end with the epilogue dropped, or wait |
| `MultipartStream.MultipartFormDataParser.Parse` | 3rdparty/httplib/httplib.cc:1952-2058 | one call refines the state machine on the buffered text and ends, by a measure on the window size and the state |
| `Chunked.RoundTripExactlyWhen` | 3rdparty/httplib/httplib.cc:1516-1554 | whatever operations the provider performed: the reader succeeds, delivers exactly the payload and consumes exactly the bytes written, if and only if the provider said done and nothing was written after it |
| `Chunked.WhatTheReaderSees` | 3rdparty/httplib/httplib.cc:1516-1554 | with any bytes following: the reader delivers the payload written before the first done and stops right after its marker; without a done it goes on reading what follows |
| `Chunked.WritesThenDone` | 3rdparty/httplib/httplib.cc:1737-1815 | for every run over any calls of a provider that writes no empty data and says done at most as its last word, the reader gets exactly what was written and leaves what follows |
| `Chunked.RunEndsUnavailable` | 3rdparty/httplib/httplib.cc:1799-1811 | a run that ends well ended with done or with an empty write |
| `Chunked.FrameIsRead` | 3rdparty/httplib/httplib.cc:1758-1763 | a written chunk is read as its payload, followed by the reading of the rest |
| `Chunked.SucceedsExactlyWhen` | 3rdparty/httplib/httplib.cc:1516-1554 | for every byte string: reading succeeds if and only if chunks are followed by a last chunk with its line end, or they break off at a chunk whose data is not followed by a line end; no input is both, so success means a complete body exactly when it does not break off |
| `Chunked.TerminatedIsRead` | 3rdparty/httplib/httplib.cc:1516-1554 | a complete body, whatever its size lines look like, is read as its data, and reading stops at its end |
| `Chunked.CutOffChunkSucceeds` | 3rdparty/httplib/httplib.cc:1541-1544 | an input cut off inside the line end after a chunk is reported as a success |
| `Chunked.UnterminatedChunkSucceeds` | 3rdparty/httplib/httplib.cc:1541-1544 | a body that breaks off at a chunk, because another line or the end of the input comes where its line end should be, is read as the data up to there, and it is reported as a success |
| `Chunked.SizeIsRead` | 3rdparty/httplib/httplib.cc:1529-1534 | hexadecimal digits before a line end are read by the size parser as their value |
| `Chunked.SizeInAnyForm` | 3rdparty/httplib/httplib.cc:1529-1534 | a size may have spaces, a sign and a hexadecimal prefix before its digits, and a chunk extension or anything else that is no digit after them: it is read as its value, the largest one when it does not fit, and wrapped when negative |
| `Chunked.NoDigitsNoSize` | 3rdparty/httplib/httplib.cc:1531-1534 | a line without digits where they should be gives no size |
| `Chunked.FailuresAre` | 3rdparty/httplib/httplib.cc:1523-1544 | a reading fails at the end of the input, at a line without a size or with the largest one, and inside a chunk: it has handed on all data so far and leaves what stands behind the line that failed |
| `Chunked.LastChunkNeedsItsLineEnd` | 3rdparty/httplib/httplib.cc:1547-1551 | after a last chunk the reading succeeds exactly when the next line is a bare line end |
| `ChunkedStream.SocketStream.Read` | 3rdparty/httplib/httplib.cc:2829-2873 | small and large reads through the 4096-byte buffer deliver a non-empty prefix of the unread bytes unless there are none: delivered bytes plus unread bytes are the bytes received |
| `ChunkedStream.SocketStream.TakeBuffered` | 3rdparty/httplib/httplib.cc:2837-2847 | buffered bytes are copied from the read offset on |
| `ChunkedStream.LineReader.Append` | 3rdparty/httplib/httplib.cc:360-371 | the line grows by one character, in the fixed buffer while it fits and then in the growable one |
| `ChunkedStream.LineReader.GetLine` | 3rdparty/httplib/httplib.cc:334-358 | reads exactly the first line of the bytes to come, or reports that there is none |
| `ChunkedStream.ReadContentWithLength` | 3rdparty/httplib/httplib.cc:1464-1484 | hands on exactly the next len bytes, or all bytes there are and a failure |
| `ChunkedStream.ReadContentChunked` | 3rdparty/httplib/httplib.cc:1516-1554 | for every delivery schedule of the socket, result, bytes handed on and bytes left are those of the specified reading |
| `ChunkedStream.FromIToHex` | 3rdparty/httplib/httplib.cc:41-49 | the digit loop writes the hexadecimal numeral of its argument |
| `ChunkedStream.ChunkedSink.Write` | 3rdparty/httplib/httplib.cc:1746-1768 | a non-empty write sends one chunk; an empty one sends nothing and ends the data |
| `ChunkedStream.ChunkedSink.Finish` | 3rdparty/httplib/httplib.cc:1770-1796 | done sends the last-chunk marker and ends the data |
| `ChunkedStream.WriteContentChunked` | 3rdparty/httplib/httplib.cc:1737-1815 | the provider loop sends the specified bytes and reports whether the provider cancelled |
| `ChunkedStream.Transfer` | 3rdparty/httplib/httplib.cc:1516-1554 | writing and then reading over any socket schedule gives back the payload and leaves what followed |
| `Query.QueryRoundTripsExactlyWhen` | 3rdparty/httplib/httplib.cc:1851-1884 | for sorted parameters with readable keys and arbitrary byte values, parsing the printed text gives the same parameters if and only if no pair occurs twice |
| `Query.EncodedIsDecoded` | 3rdparty/httplib/httplib.cc:164-252 | percent coding is undone for every byte string |
| `Query.EncodedAlphabet` | 3rdparty/httplib/httplib.cc:164-183 | the coded text contains only the unreserved marks of the coder and percent signs |
| `Query.SplitOne` | 3rdparty/httplib/httplib.cc:288-306 | a trimmed text without the delimiter is one segment |
| `Query.SplitFirst` | 3rdparty/httplib/httplib.cc:288-306 | a trimmed segment in front of a delimiter is split off, and the rest is split alike |
| `Query.PairIsRead` | 3rdparty/httplib/httplib.cc:1867-1882 | one printed pair is read back as the pair, an empty value included |
| `Query.EncodeQueryParam` | 3rdparty/httplib/httplib.cc:164-183 | the loop computes the coding that decoding undoes |
| `Query.FromHexToI` | 3rdparty/httplib/httplib.cc:24-39 | the digit loop reads exactly cnt digits, or nothing if one is missing or not hexadecimal |
| `Query.DecodeUrl` | 3rdparty/httplib/httplib.cc:217-252 | the index loop computes the specified decoding: pairs, the u-form, plus signs and truncated escapes; what that decoding means is EveryCodingIsDecoded, UnicodeIsDecoded and LonePercentIsKept |
| `Query.TrimIndices` | 3rdparty/httplib/httplib.cc:272-281 | for a segment between non-blanks the two index loops delimit exactly the trimmed text, and cross when it is empty |
| `Query.SplitText` | 3rdparty/httplib/httplib.cc:288-306 | the loop yields exactly the trimmed non-empty segments, in order |
| `Query.ParamsToQueryStr` | 3rdparty/httplib/httplib.cc:1851-1861 | the loop prints the text that parsing reads back |
| `Query.ReadKeyValue` | 3rdparty/httplib/httplib.cc:1870-1881 | the key is the first segment and the value the last of the others, decoded |
| `Query.ParseQueryText` | 3rdparty/httplib/httplib.cc:1863-1884 | the loop with its cache of texts already seen computes the specified parameters; what those are is KeyAndValue, ParsedIsSorted and InsertKeepsOrder |
| `QueryCodings.EveryCodingIsDecoded` | 3rdparty/httplib/httplib.cc:217-252 | every coding of a byte string is decoded to it: each byte as itself where it is no escape, as a plus sign for a blank when those are decoded, or as a percent escape in digits of either case |
| `QueryCodings.FormIsDecoded` | 3rdparty/httplib/httplib.cc:217-252 | decoding with plus signs undoes form coding, with a plus for each blank, for every byte string |
| `QueryCodings.EncodedIsOneCoding` | 3rdparty/httplib/httplib.cc:164-183 | the coder writes letters, digits and nine marks as themselves and everything else as an escape with capital digits |
| `QueryCodings.LonePercentIsKept` | 3rdparty/httplib/httplib.cc:221-243 | a percent sign that does not start an escape stands for itself |
| `QueryCodings.UnicodeIsDecoded` | 3rdparty/httplib/httplib.cc:51-83 | a u-escape is decoded to the UTF-8 bytes of its code, as a reader of UTF-8 recovers it, and that of a surrogate to nothing |
| `QueryCodings.SplitYieldsTheCores` | 3rdparty/httplib/httplib.cc:288-306 | splitting gives exactly the segments that are not blank, without the blanks around them |
| `QueryCodings.KeyAndValue` | 3rdparty/httplib/httplib.cc:1870-1881 | of a parameter the first segment that is not blank is the key and the last of the others the value, or there is none |
| `QueryCodings.ParsedIsSorted` | 3rdparty/httplib/httplib.cc:1863-1884 | whatever the text, the parameters are sorted by key |
| `QueryCodings.InsertKeepsOrder` | 3rdparty/httplib/httplib.cc:1877-1879 | a pair goes behind those whose keys do not come after its own, so equal keys keep the order in which they came |
| `Base64.EncodingIsDecoded` | 3rdparty/httplib/httplib.cc:85-111 | a decoder of section 4 of RFC 4648 recovers every byte string from its coding |
| `Base64.EncodingIsPadded` | 3rdparty/httplib/httplib.cc:85-111 | four characters for every three bytes begun, and padding exactly at the end |
| `Base64.ByteStep` | 3rdparty/httplib/httplib.cc:95-102 | after one byte the low bits of the wrapped accumulator are the symbols that the coding by blocks adds; the bits above them never matter |
| `Base64.EmitBits` | 3rdparty/httplib/httplib.cc:98-101 | the inner loop writes every six bits that are there and leaves -6, -4 or -2 pending |
| `Base64.Base64Encode` | 3rdparty/httplib/httplib.cc:85-111 | the shift-accumulator loop, with a 32-bit wrapping accumulator, computes the coding by blocks of three |
| `ThreadPool.EveryInterleaving` | 3rdparty/httplib/httplib.h:538-606 | in every interleaving with at least one worker: enqueued jobs are the started ones followed by the queued ones, each job is queued, running or finished as often as it was enqueued, while some worker is blocked at least as many are on the way to a job as there are jobs queued, but for the one whose notification is due, and while jobs are queued and no notification is due some worker is not blocked |
| `ThreadPool.ShutdownDrains` | 3rdparty/httplib/httplib.h:556-569 | when shutdown returns the queue is empty, every job was started in order, and every job has finished |
| `ThreadPool.StepLowers` | 3rdparty/httplib/httplib.h:556-594 | once the flag is set every step, spurious wakeups included, lowers a measure |
| `ThreadPool.NeverStuck` | 3rdparty/httplib/httplib.h:556-594 | until shutdown has returned some step is possible |
| `ThreadPool.ShutdownEnds` | 3rdparty/httplib/httplib.h:556-594 | a run from the moment the flag is set has boundedly many steps and can only stop when shutdown has returned |
| `ThreadPool.NoWorkersNoService` | 3rdparty/httplib/httplib.h:540-569 | without workers shutdown returns with the jobs still queued, so the worker is needed |
| `ThreadPool.StepKeeps` | 3rdparty/httplib/httplib.h:550-594 | every step of every thread keeps the invariant of the pool |
| `ClientSocket.FlightOwner` | 3rdparty/httplib/httplib.cc:4137-4224 | in every interleaving a positive in-flight count means that the recorded thread owns the request mutex and all of those requests are its own |
| `ClientSocket.NoOtherRequestLosesItsSocket` | 3rdparty/httplib/httplib.cc:4069-4099 | in every interleaving no assertion of shutdown_ssl, close_socket and send fails, and a socket is closed or replaced only when no other thread has a request in flight |
| `ClientSocket.NoDeadlock` | 3rdparty/httplib/httplib.cc:4137-4224 | a thread inside a call can go on, or waits for the owner of the socket mutex, who can |
| `ClientSocket.OpenAtRestExactlyWhen` | 3rdparty/httplib/httplib.cc:4137-4224 | in every interleaving, whenever no request is in flight: the socket is open if and only if some request opened it, or found it alive, and since then nothing shut it, be it a stop, a closing, a request that ended with closing, or one that failed to connect |
| `ClientSocket.StopHonouredExactlyWhen` | 3rdparty/httplib/httplib.cc:5146-5167 | in every run from the start: a stop that found requests in flight leaves the socket closed when the last of them ends, if and only if no request opened or kept it after the stop without anything shutting it again; every request sent in between is nested, sent by the thread that was in flight |
| `ClientSocket.StopIsHonoured` | 3rdparty/httplib/httplib.cc:5146-5167 | a stop that found requests in flight leaves the socket closed once they are done, as long as no request is opened on top |
| `ClientSocket.OnlyNestedSendForgetsStop` | 3rdparty/httplib/httplib.cc:4143-4145 | exactly a request that the thread in flight sends from within its own clears the flag of a pending stop |
| `ClientSocket.ForgottenStop` | 3rdparty/httplib/httplib.cc:4143-4145 | it happens, in a run from the start with two threads: a stop comes between a request and the redirect it follows, and when both are done the socket is open, either a new one or the one that was shut |
| `ClientSocket.RequestsUseTheNewestSocket` | 3rdparty/httplib/httplib.cc:4137-4224 | in every interleaving the open socket is that of the newest connection, it has been shut exactly when a stop came after that connection, and a request that gets a socket gets this one |
| `ClientSocket.StepKeeps` | 3rdparty/httplib/httplib.cc:4137-4224 | every step of every thread keeps the invariant of the two mutexes and the count |
| `ConfigRoundTrip.ConfigRoundTripsExactlyWhen` | 3rdparty/libconfig/libconfig.c:170-394 | writing a tree of settings, with any indentation, and reading the text back rebuilds names, order, types, values and number formats if and only if no setting is called true or false in any case; otherwise reading fails |
| `ConfigRoundTrip.StoreRoundTrips` | 3rdparty/libconfig/libconfig.c:634-667 | the same from a well-formed store of settings to the store that reading builds |
| `ConfigRoundTrip.TokensRebuildTheTree` | 3rdparty/libconfig/grammar.c:1476-1789 | the semantic actions on the tokens of a tree rebuild the tree |
| `ConfigRoundTrip.BooleanNamesAreNotRead` | 3rdparty/libconfig/scanner.c:1133-1147 | a name that the scanner takes as a boolean, anywhere in the tree, is a syntax error: no derivation has an equals sign after anything but a name |
| `ConfigWriter.WrittenTextIsRead` | 3rdparty/libconfig/libconfig.c:170-394 | scanning a written file gives exactly the tokens of its settings |
| `ConfigWriter.EscapingIsUndone` | 3rdparty/libconfig/libconfig.c:247-293 | string escaping is undone at character level for every string without NUL |
| `ConfigWriter.DecimalIsRead` | 3rdparty/libconfig/scanner.c:1153-1162 | a written decimal number is scanned as its value, for the whole 64-bit range |
| `ConfigWriter.HexIsRead` | 3rdparty/libconfig/scanner.c:1163-1175 | a written hexadecimal number is scanned as its bits |
| `ConfigWriter.BitsAreSigned` | 3rdparty/libconfig/libconfig.c:183-211 | printing the bits of a negative number and reading them as signed gives the number, in 32 and in 64 bits |
| `ConfigWriter.NameIsSoft` | 3rdparty/libconfig/scanner.c:1133-1147 | a valid name in front of a delimiter is scanned as one name or boolean token |
| `ConfigWriter.LayoutOfAGroup` | 3rdparty/libconfig/libconfig.c:156-394 | a setting in a group is written on its own line behind one level of blanks or one tab, between braces that are not indented |
| `ConfigGrammar.EveryParseKeepsTheTree` | 3rdparty/libconfig/grammar.c:1476-1789 | for every token sequence the actions follow no null or dangling pointer and leave a well-formed tree; on success every setting has a value and the parser is back at the root |
| `ConfigGrammar.NamingKeeps` | 3rdparty/libconfig/grammar.c:1478-1492 | naming a setting keeps the invariants, and a duplicate or invalid name aborts |
| `ConfigGrammar.StartingKeeps` | 3rdparty/libconfig/grammar.c:1497-1514 | an opening bracket always finds a list to append to or a setting without a value |
| `ConfigGrammar.ValueKeeps` | 3rdparty/libconfig/grammar.c:1560-1745 | a simple value keeps the invariants; in an array a value of another type aborts |
| `ConfigSyntax.ParsesExactlyWhen` | 3rdparty/libconfig/grammar.c:1476-1789 | for every token sequence: parsing succeeds if and only if the grammar derives it with valid names, no name twice in a group and one type in each array; and for whichever derivation there is, the tree built is the one it means, with string literals in a row joined and commas, semicolons or nothing after a setting |
| `ConfigSyntax.SpellingsAreRead` | 3rdparty/libconfig/grammar.c:1476-1789 | every spelling of settings is read and gives the tree that it means |
| `ConfigSyntax.NameIsTakenExactlyWhen` | 3rdparty/libconfig/libconfig.c:1524-1546 | a name becomes that of a new setting if and only if it is valid and no member of the group has it |
| `ConfigTree.ValidNamesCompare` | 3rdparty/libconfig/libconfig.c:130-152 | on valid names the comparison is zero exactly on equality |
| `ConfigTree.HeldOnce` | 3rdparty/libconfig/libconfig.c:755-782 | in a well-formed store every setting but the root is held by its parent exactly once |
| `ConfigTree.CreateKeeps` | 3rdparty/libconfig/libconfig.c:755-782 | appending a setting keeps names unique, arrays homogeneous and parents right |
| `ConfigTree.NotFoundIsNew` | 3rdparty/libconfig/libconfig.c:413-438 | a member is not found exactly when no member has the name |
| `ConfigTree.MemberIsFound` | 3rdparty/libconfig/libconfig.c:1476-1483 | in a well-formed group a name finds exactly the member that has it |
| `ConfigTree.SettingKeepsItsType` | 3rdparty/libconfig/libconfig.c:977-1038 | a setting that has a scalar keeps its type: another type changes nothing, except that an integer takes a 64-bit number, or 0 where that does not fit |
| `ConfigParser.ParseContext.NameSetting` | 3rdparty/libconfig/grammar.c:1478-1492 | the action adds a setting without a value and makes it the current one, or leaves everything unchanged |
| `ConfigParser.ParseContext.StartAggregate` | 3rdparty/libconfig/grammar.c:1497-1546 | the action enters a new element of the list or the current setting |
| `ConfigParser.ParseContext.EndAggregate` | 3rdparty/libconfig/grammar.c:1516-1523 | the action goes back to the enclosing aggregate |
| `ConfigParser.ParseContext.SetValue` | 3rdparty/libconfig/grammar.c:1560-1745 | the action appends to the vector or sets the current setting |
| `ConfigParser.ParseContext.JoinStrings` | 3rdparty/libconfig/grammar.c:1555-1566 | adjacent literals are collected into one string |
| `ConfigParser.ParseContext.Parse` | 3rdparty/libconfig/grammar.c:1476-1789 | for every token sequence the parse, which updates tree, parent and setting in place, gives the outcome of the specified grammar and never follows a null pointer |
| `ConfigParser.ReadString` | 3rdparty/libconfig/libconfig.c:553-631 | reading a text leaves a well-formed tree and reports success exactly when the grammar accepts its tokens |
| `ConfigScanner.Scanner.InString` | 3rdparty/libconfig/scanner.c:996-1055 | the rules of the string condition, with the string buffer, yield the literal that the grammar of literals says |
| `ConfigScanner.Scanner.InComment` | 3rdparty/libconfig/scanner.c:971-991 | the rules of the comment condition skip exactly to the end of the comment |
| `ConfigLexer.BlockCommentIsSkipped` | 3rdparty/libconfig/scanner.c:971-991 | a block comment adds no token, whatever stands in it |
| `ConfigLexemes.LineCommentsAddNothing` | 3rdparty/libconfig/scanner.c:1201-1214 | after either mark a line comment adds no token when its line ends; without a line end its first mark is garbage and the rest is read |
| `ConfigLexemes.BlanksAddNothing` | 3rdparty/libconfig/scanner.c:1102-1112 | blanks, tabs, form feeds, carriage returns and line feeds between tokens add none |
| `ConfigLexemes.OpenCommentEndsTheText` | 3rdparty/libconfig/scanner.c:971-991 | a block comment that is not closed swallows the rest of the text |
| `ConfigLexemes.OtherMarksAreGarbage` | 3rdparty/libconfig/scanner.c:1209-1213 | any other mark is garbage |
| `ConfigLexemes.WordsAreRead` | 3rdparty/libconfig/scanner.c:1133-1147 | a letter or star, then letters, digits, stars, hyphens and underscores: one name, or a boolean when it spells true or false in any case |
| `ConfigLexemes.IntegersAreRead` | 3rdparty/libconfig/scanner.c:1153-1162 | an optional sign of either kind, digits and an optional suffix give the number, cut at the ends of 64 bits, and without a suffix to 32 bits |
| `ConfigLexemes.HexadecimalsAreRead` | 3rdparty/libconfig/scanner.c:1163-1175 | digits of either case after either prefix, and an optional suffix, give the number as 32 or 64 bits |
| `ConfigLexemes.FloatsAreRead` | 3rdparty/libconfig/scanner.c:1148-1152 | a number with a point, digits before or after it or not, and an exponent or not, is one float with exactly that text |
| `ConfigLexemes.FloatsWithoutPoint` | 3rdparty/libconfig/scanner.c:1148-1152 | digits with an exponent are one float with exactly that text |
| `ConfigLexemes.LiteralsAreRead` | 3rdparty/libconfig/scanner.c:992-1055 | a string literal of bare characters, escapes and two-digit codes is one token with the text these mean; without its closing quote it swallows the rest |
| `ConfigScanner.Scan` | 3rdparty/libconfig/scanner.c:960-1215 | the token loop with its start condition returns exactly the tokens of the lexical grammar |
| `ConfigLookup.LookupInvertsPrinting` | 3rdparty/libconfig/libconfig.c:1142-1171 | for every setting of a well-formed tree, looking up its printed path returns that setting |
| `ConfigLookup.LookupFollowsThePath` | 3rdparty/libconfig/libconfig.c:1142-1171 | looking up any printed path finds what its steps lead to, and nothing when a step leads nowhere |
| `ConfigLookup.LookupFollowsExactlyWhen` | 3rdparty/libconfig/libconfig.c:1142-1171 | for every tree, setting and path, well formed or not: looking up gives what the segments of the path lead to, if and only if the path does not end in a bare opening bracket after segments that lead to a setting without an element 0; then it gives that setting |
| `ConfigLookup.LoneBracket` | 3rdparty/libconfig/libconfig.c:1142-1171 | the shortest such path: a lone bracket finds element 0, or the setting itself when there is none |
| `ConfigLookup.AnySeparatorsWillDo` | 3rdparty/libconfig/libconfig.c:1142-1171 | points, colons and slashes separate steps alike, in any number and at either end of the path: the lookup still finds what the steps lead to |
| `ConfigLookup.IndexInAnyForm` | 3rdparty/libconfig/libconfig.c:1156-1157 | an index may have white space and a sign before its digits and anything but a digit after them; a negative one wraps around |
| `ConfigLookup.IndexIsRead` | 3rdparty/libconfig/libconfig.c:1156-1157 | a printed position is read back by atoi as itself |
| `ConfigLookup.Lookup` | 3rdparty/libconfig/libconfig.c:1142-1171 | the cursor loop computes the specified lookup, its quirk at a final bracket included |
| `ConfigStorage.SettingList.Add` | 3rdparty/libconfig/libconfig.c:398-409 | appends one setting in bounds and keeps the capacity at least the length rounded up to 16 |
| `ConfigStorage.SettingList.Remove` | 3rdparty/libconfig/libconfig.c:442-457 | returns the setting removed and closes the gap, in place |
| `ConfigStorage.SettingList.Replay` | 3rdparty/libconfig/libconfig.c:398-457 | through any mix of adds and removes the list is what the changes say and the capacity suffices |
| `ConfigStorage.StringBuffer.Append` | 3rdparty/libconfig/strbuf.c:41-55 | the content is the old content and the text, NUL-terminated, in a capacity that is the next multiple of 64 when it grows |
| `ConfigStorage.StringBuffer.Release` | 3rdparty/libconfig/strbuf.c:32-37 | gives the content away and leaves an empty buffer without storage |
| `ItemSave.SaveRefinesReplaceAll` | src/char/char.cpp:532-743 | for any old rows, any result order and any duplicate match keys: afterwards the owner's rows hold each item, compared field by field in the columns of the table, exactly as often as the non-empty entries do, and other owners' rows are untouched |
| `ItemSave.SaveIsIdempotentExactlyWhen` | src/char/char.cpp:621-736 | a second save issues no statement, whatever the result order, if and only if entries that match are equal |
| `ItemSave.SaveThenLoad` | src/char/char.cpp:745-849 | loading after a save returns the non-empty entries, compared field by field, each as often as the array holds it, ordered by nameid, when they fit |
| `ItemSave.StatementsMakeTheTable` | src/char/char.cpp:532-743 | the table after a save is what the statements issued, executed one after the other, make of the table before |
| `ItemMatching.RowsSurviveExactlyWhen` | src/char/char.cpp:615-690 | for any rows and entries with repeated match columns: a row survives a save under its id if and only if more non-empty entries have its nameid, cards 0, 2 and 3 and unique id than rows before it in the result set; and then it holds, in every column, the entry that stands at the same place among those |
| `ItemSave.ItemTable.MatchRow` | src/char/char.cpp:621-690 | one row is left alone, updated to the first free matching entry, or deleted |
| `ItemSave.ItemTable.MemitemdataToSql` | src/char/char.cpp:532-743 | the row loop with its flag array and the final insert compute the specified table and statements, so that the refinement of delete-all-then-insert holds of it |
| `ItemSave.ItemTable.Unmatched` | src/char/char.cpp:705-730 | the insert lists exactly the non-empty entries without a flag, in order |
| `ItemSave.ItemTable.MemitemdataFromSql` | src/char/char.cpp:745-849 | copies at most max rows in order and clears the rest of the storage |
| `Achievement.SaveIsExact` | src/char/int_achievement.cpp:205-243 | with distinct achievements the save succeeds, and each entry is in the table with exactly its progress, except a new one whose id is 0 or whose counts, completion and reward are all 0; achievements not in the log have no row, and other characters are untouched |
| `Achievement.SaveOutcome` | src/char/int_achievement.cpp:205-251 | for every log, where k is the first entry to be inserted over an existing row: the table holds for each achievement the first entry before k that is written for it, old rows of achievements that do not occur before k are erased, other characters are untouched, and success is reported if and only if there is no such k or some old row was erased |
| `Achievement.SavesAllExactlyWhen` | src/char/int_achievement.cpp:217-238 | every entry is saved if and only if none has to be inserted over a row that is already there |
| `Achievement.RepeatedEntryLosesProgress` | src/char/int_achievement.cpp:217-248 | an instance: an achievement that occurs twice before an old one; the second insertion fails, the old row is erased, and success is reported |
| `Achievement.WithoutAt` | src/char/int_achievement.cpp:227-231 | moving the later entries down removes exactly the matched one |
| `Achievement.AchievementTable.Compact` | src/char/int_achievement.cpp:227-231 | the in-place move closes the gap |
| `Achievement.AchievementTable.Add` | src/char/int_achievement.cpp:108-151 | nothing is stored for an entry with id 0 or with counts, completion and reward all 0; inserting an existing key fails |
| `Achievement.AchievementTable.SaveOne` | src/char/int_achievement.cpp:217-238 | one entry: the first entries of the array stay exactly the old ones not yet matched, and the table changes as specified |
| `Achievement.AchievementTable.Save` | src/char/int_achievement.cpp:205-251 | the two loops over the array compute the specified outcome for every log, repeated achievements included: what is saved, what is erased and what is reported |
| `SlotCache.CacheAgreesInEveryRun` | src/char/char_clif.cpp:69-126 | over every run of load, create, delete and move after a first load, whatever the cache held before: the cache holds id in slot s exactly when the account's row id stands in s, and no two characters of the account share a slot of the list |
| `SlotCache.ReloadIsRight` | src/char/char.cpp:902-1017 | loading makes the cache right from any content, with at most 15 rows to take |
| `SlotCache.MakeNewKeeps` | src/char/char.cpp:1422-1482 | creating a character in a free slot keeps table and cache in agreement |
| `SlotCache.RemoveKeeps` | src/char/char.cpp:1555-1765 | deleting a character clears exactly its slot |
| `SlotCache.MoveKeeps` | src/char/char_clif.cpp:69-126 | a move, to a free or a used slot, keeps slots unique and the reloaded cache right |
| `SlotCache.MoveExchanges` | src/char/char_clif.cpp:69-126 | an allowed move exchanges the two slots in table and cache and changes no other row or slot |
| `SlotCache.MovesExactlyWhen` | src/char/char_clif.cpp:69-126 | in terms of the table alone: a character stands in the new slot if and only if moving is enabled, it has a change left or changes are unlimited, the slot is one of the account, and nobody of the account stands there or exchanges are allowed; it spends one change, whoever stood there has the old slot, and every other row is untouched; otherwise nothing changes |
| `SlotCache.EmptySlotDoesNotMove` | src/char/char_clif.cpp:88-92 | a move out of a slot in which nobody stands does nothing |
| `SlotCache.CreatesExactlyWhen` | src/char/char.cpp:1422-1482 | in terms of the table alone: a character is created if and only if no check refuses it, its slot is one of the account and free, and the account has fewer characters than slots, which is no condition while all stand in slots of the account |
| `SlotCache.DeletesExactlyWhen` | src/char/char.cpp:1555-1765 | in terms of the table alone: a row is deleted if and only if no check refuses it and it is one of the account in a slot that is shown; exactly its slot is empty then |
| `SlotCache.MovedSlots` | src/char/char_clif.cpp:97-120 | the character moved loses one slot change, and nothing but the two slots changes in the table |
| `SlotCache.NewCharacterInheritsMoves` | src/char/char_clif.cpp:1246-1259 | after a creation the cached slot changes agree with the table exactly when the slot had none left |
| `SlotCache.SessionData.LoadChars` | src/char/char.cpp:902-1017 | clears the cache and enters at most 15 rows, as the specified reload |
| `SlotCache.SessionData.MakeNewChar` | src/char/char.cpp:1422-1482 | refuses a slot out of range, a full account or a taken slot; otherwise inserts the row and enters it in the cache, as specified |
| `SlotCache.SessionData.DeleteChar` | src/char/char.cpp:1555-1765 | refuses an id that is not cached or not a row of the account; otherwise deletes the row and clears its slot, as specified |
| `SlotCache.SessionData.MoveCharSlot` | src/char/char_clif.cpp:69-126 | refuses without moves left, from an empty slot, or onto a used one when that is not allowed; otherwise exchanges the slots, counts the move and reloads, as specified |
| `Auction.ZenyIsConserved` | src/char/int_auction.cpp:150-488 | over every run from an empty house, restarts included, with non-zero character ids: zeny received with bids = zeny mailed + zeny returned in replies + the prices of live auctions with a buyer |
| `Auction.EveryCharactersBooks` | src/char/int_auction.cpp:150-488 | over every run, restarts included, for every character: what it bid = what it got back by mail and in replies + the prices of the auctions it leads + the sale prices of the auctions it won; and what it was mailed as a seller = the sale prices of the auctions it sold |
| `Auction.EveryoneIsTold` | src/char/int_auction.cpp:150-488 | over every run each character is told exactly once of every auction it won and of every time it was outbid |
| `Auction.OnlyTheEntitledActOn` | src/char/int_auction.cpp:332-488 | an auction ends exactly after its seller cancels it without a bid or closes it with one, somebody bids the buy-out price, or its timer fires; its leader and price change exactly with a bid that is taken; otherwise it stays as it is |
| `Auction.RegisteredExactlyWhen` | src/char/int_auction.cpp:332-350 | an auction is new exactly when its seller has fewer than five on sale; then nobody has bid on it, and one identified item that does not expire is for sale at the prices registered |
| `Auction.CancelIsAnswered` | src/char/int_auction.cpp:361-388 | cancelling replies 1 for an unknown auction, 2 to others than the seller, 3 after a bid, and 0 exactly when the auction is over |
| `Auction.CloseIsAnswered` | src/char/int_auction.cpp:399-429 | closing replies 2 for an unknown auction, 1 to others than the seller and before a bid, and 0 exactly when the auction is over |
| `Auction.BidsAreAnswered` | src/char/int_auction.cpp:441-488 | a bid is returned whole with result 0 when the auction is unknown or the bidder sells it or the bid is too low, and with 9 when the bidder leads five others and does not buy out; any other bid is accepted after the previous bidder is paid back, and the excess over the buy-out price is returned |
| `Auction.HandleBooks` | src/char/int_auction.cpp:332-488 | on every account, that of a bidder, a seller, a winner, a loser or all together, a bid books exactly the zeny that came with it, and every other packet or timer books nothing |
| `Auction.BidsFromNobody` | src/char/int_auction.cpp:441-488 | a bid accepted from character 0 keeps the books exactly when it buys the item out |
| `Auction.ItemsAreConserved` | src/char/int_auction.cpp:34-488 | over every run: each auction ever registered is live with exactly one pending timer, or it is over; its price rose with every accepted bid, each bidder was paid back when the next one bid, and in the end the item was mailed once, to the last bidder or else the seller, and the price once, to the seller; nobody sells or leads more than five |
| `Auction.HandleKeeps` | src/char/int_auction.cpp:332-488 | every packet, timer and restart keeps auctions, timers, rows, stories and limits in step |
| `Auction.RestartRestores` | src/char/int_auction.cpp:184-264 | a restart brings back the same auctions, up to their timers |
| `Auction.AmountsFit` | src/char/int_auction.cpp:431-488 | amounts that fit 32 bits stay within 32 bits, and nothing negative is mailed |
| `Auction.AuctionServer.CountAuctions` | src/char/int_auction.cpp:34-47 | the loop counts the auctions that the character sells or leads |
| `Auction.AuctionServer.DeleteAuction` | src/char/int_auction.cpp:172-182 | row, pending timer and entry go together |
| `Auction.AuctionServer.ParseRegister` | src/char/int_auction.cpp:332-350 | refines the registration of the specification: below five sales the auction, its row and one timer appear together, and otherwise nothing changes |
| `Auction.AuctionServer.ParseCancel` | src/char/int_auction.cpp:361-388 | refines the cancelling of the specification: refused without the auction, for another seller or after a bid; otherwise the item goes back to the seller and the auction ends |
| `Auction.AuctionServer.ParseClose` | src/char/int_auction.cpp:399-429 | refines the closing of the specification: refused without the auction, for another seller or without a bidder; otherwise price and item change hands and the auction ends |
| `Auction.AuctionServer.ParseBid` | src/char/int_auction.cpp:441-488 | refines the bidding of the specification: a refused bid is returned whole, an accepted one refunds the previous bidder first, and at the buy-out price the auction ends with the excess returned |
| `Auction.AuctionServer.EndTimer` | src/char/int_auction.cpp:150-170 | refines the expiry of the specification: the item goes to the last bidder and the price to the seller, or the item back to the seller; the timer that went off is not deleted again |
| `Auction.AuctionServer.LoadFromSql` | src/char/int_auction.cpp:184-264 | refines the restart of the specification: every row becomes a live auction with one new timer |

## Left out

- Sockets, `select`, name resolution, SSL, files, console and logging. A socket delivers any non-empty prefix of what is
  to come; a socket that is not `reliable` may also time out, and then only the order and count of bytes is promised.
- Failing writes (`write_data`), `is_writable` and `is_shutting_down` in the chunked writer, and gzip and brotli.
- Content receivers that refuse: in the multipart parser a callback refuses after a given number of calls; in the
  chunked reader the receiver takes everything.
- Header lines of a multipart form of exactly 8192 characters, and longer ones after the first line: the parser model
  refuses them as the code does, but when that happens depends on where the chunks are cut. The round trip is stated for
  shorter lines.
- `std::regex`: the Content-Disposition expression is an explicit match; its greediness is that of the first closing
  quote that lets the rest match.
- libconfig: `@include`, locale, memory freeing, `config_setting_remove` on the tree (its list is modelled), hooks, line
  numbers, error texts, the limit of the parser stack, and the packed tables of the parser and the scanner, which are
  replaced by the rules they encode. Settings are indices into a store instead of pointers.
- libconfig floats: a float keeps the text it was read from, because printing it loses digits; trees with floats are
  outside the round trip.
- `size_t` and list lengths are unbounded; positions in printed paths are below 2^31, as `config_setting_index` assumes.
- SQL failures other than the insertion of an existing key, transactions, character sets and column widths; in item
  saves the messages about lost items.
- Auctions: the list request, names, hours and timestamps, the attribute, enchant grade and random options of an item,
  and the delivery of mail. Shared pointers to a deleted auction are not followed after its handler.
- Slot indexes taken from a packet are assumed in range, as is `char_slots`; names, jobs and starting items of a new
  character are not modelled, the checks on deletion are one answer, and the limit of accounts with VIP is not modelled.
- Spurious failures of mutexes, exceptions thrown by jobs, and enqueueing after the shutdown flag is set.
- HTTP requests and responses, ranges, MIME and status tables, config-file readers, packet variants, clan and elemental
  handlers, Python and PHP tools: plumbing or easy members.
