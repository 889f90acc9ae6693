# Parsers and encoders of x3me_libs

This project models, in Dafny, the parsing libraries that x3me_libs is built around, and proves what they are for.

- **HTTP** (`http_parser.c`): the resumable parser for requests and responses. `HttpStep` is what one byte does;
  `HttpParser` is the buffered loop over the fields of the parser, with its marks and its ways of skipping ahead, and
  does what the steps do. `HttpInvariant` is what holds between bytes. `HttpSplit` and `HttpSkip` say when the cutting
  of a stream into buffers does not matter. `HttpChunked`, `HttpHeaders`, `HttpOptions`, `HttpFraming`, `HttpNumbers`,
  `HttpRequestLine`, `HttpUrl`, `HttpMessage`, `HttpRequest` and `HttpResponse` say what well-formed messages are read
  as, piece by piece and whole; `HttpVariants` has the other ways to write them, and what is refused.
- **JSON** (`rapidjson`): two parsers for one grammar, two writers, the document that is built from events, and
  pointers. `JsonRecursive` and `JsonIterative` are the parsers as functions, on the scanners of `JsonScan`;
  `JsonReader` is the reader object. `JsonSpelling`, `JsonLexis`, `JsonGrammar`, `JsonGrammarRead` and `JsonTexts` say
  which texts they accept, by a grammar of their own. `JsonWriter` is what the writers append, `JsonWriterObject` the
  writer object and `JsonLayout` what its text looks like. `JsonDocument`, `JsonPointer`, `JsonPointerSpelling`,
  `JsonPointerCode` and `JsonPointerDom` are the document and the pointers, `Utf8` the encoding.
- **Bencoding** (`bdecode.cpp`, `bencoding.cpp`): a decoder that leaves one flat array of tokens (`Bdecode`,
  `BdecodeCode`), the nodes that read it (`BdecodeNode`), and a recursive encoder and decoder (`Bencoding`,
  `BencodingCode`); `BdecodeGrammar` and `BencodingGrammar` say what each of the decoders accepts.
- **Two containers**: the pool allocator of rapidjson (`MemoryPool`) and the packed bits of `bitfield.cpp`
  (`Bitfield`).

Code that changes fields or buffers is modelled by classes and loops that are proved against functions; the laws are
proved of the functions. A parser for HTTP is the strict one (`HTTP_PARSER_STRICT` is 1). The handler of the HTTP parser
records every callback and returns 0, except that `on_headers_complete` answers by a fixed function of the parser. A
buffer of bencoded bytes has one more byte behind its end, which `parse_int` looks at.

Where comments in the code and the code differ, the code is followed: `bdecode.cpp` speaks of eight bits for the length
of a string's prefix, but there are three; a comment in `http_parser.c` says that a Content-Length beside a chunked
coding is ignored, but such a message is refused before.

## Model

| member | source | states |
|---|---|---|
| HttpInvariant.StepKeepsValid | x3me_libs-master/http-parser/http_parser.c:709-2058 | in every state that a run can reach, one more byte keeps what the assertions of the code rely on: matchers stay within their strings, body states have a length that is neither 0 nor the sentinel, chunk states imply the chunked flag, the "unknown" and "should not get here" branches are not entered, and no length accumulator wraps |
| HttpMarks.AtMostOneMark | x3me_libs-master/http-parser/http_parser.c:2071-2081 | between bytes at most one data mark is set, so at the end of a buffer at most one callback is due |
| HttpParser.HttpParser.Execute | x3me_libs-master/http-parser/http_parser.c:634-2091 | the buffered loop, with its marks, `memchr` and jumps over bodies, gives the fields, the joined callbacks and the count that the byte-by-byte step function gives; a parser that has failed does nothing; an empty buffer announces the end of the stream |
| HttpParser.HttpParser.OnByte | x3me_libs-master/http-parser/http_parser.c:709-2052 | each state that handles one byte changes the fields, the log and the marks as its step says |
| HttpParser.HttpParser.OnValueLine | x3me_libs-master/http-parser/http_parser.c:1506-1687 | the loop over a header value, with its look-ahead for the end of the line, is a run of steps over its bytes, or fails where that run fails |
| HttpParser.HttpParser.OnBodyIdentity | x3me_libs-master/http-parser/http_parser.c:1882-1917 | the jump over a body of known length is a run of steps over the bytes it takes |
| HttpParser.HttpParser.OnChunkData | x3me_libs-master/http-parser/http_parser.c:2015-2036 | the jump over the data of a chunk is a run of steps over the bytes it takes |
| HttpParser.NextLineEnd | x3me_libs-master/http-parser/http_parser.c:1535-1557 | two searches of limited length find the first CR or LF of the line, if it has one within the limit |
| HttpSplit.SplitInvariance | x3me_libs-master/http-parser/http_parser.c:634-2091 | from every usable parser, all ways of cutting a stream into non-empty buffers give the same fields, callbacks, count and way out, exactly if the byte-by-byte run meets no bad header-value byte in the shadow of the byte before it |
| HttpSplit.NothingToSkip | x3me_libs-master/http-parser/http_parser.c:1527-1558 | a lenient parser, or a stream of header characters, has no such byte |
| HttpSplit.FeedSingles | x3me_libs-master/http-parser/http_parser.c:702-706 | one-byte buffers give the byte-by-byte run in every case, errors included |
| HttpSkip.ControlAfterValue | x3me_libs-master/http-parser/http_parser.c:1527-1558 | after any request line and the beginning of any header of no interest, a control character depends on the cut exactly if the value has more than one byte before it |
| HttpSkip.ControlCharacterSkipped | x3me_libs-master/http-parser/http_parser.c:1527-1558 | one whole stream, from a new parser, whose result depends on how it is cut |
| HttpFeed.FeedAll | x3me_libs-master/http-parser/http_parser.c:634-676 | handing buffers over one after the other, until an error or a change of protocol, comes to the run over the list of buffers; it never fails for the size of a header whose bytes, with one for each buffer, stay within the limit |
| HttpFeed.FeedToEnd | x3me_libs-master/http-parser/http_parser.c:655-674 | at the end of the stream a body of unknown length is completed, a connection between messages stays as it is, and a message that is cut short is an error |
| HttpParser.HttpParser.Turn | x3me_libs-master/http-parser/http_parser.c:702-709 | one turn of the loop adds to the header counter the bytes it passes in the states that count, and one more if the buffer ends inside a header line, unless the counter starts afresh; it fails for the size of the header only if that takes the counter past 81920 |
| HttpChunked.SizeExact | x3me_libs-master/http-parser/http_parser.c:1934-1985 | a chunk size of any number of digits is taken for the number they denote, exactly if it is at most 2^64 - 17, and refused as too long otherwise |
| HttpChunked.SizeDigitsExact | x3me_libs-master/http-parser/http_parser.c:224-242 | which bytes are digits of a chunk size: the hexadecimal digits, and every byte from 128 on, which counts as 0 |
| HttpVariants.ParametersIgnored | x3me_libs-master/http-parser/http_parser.c:1950-1996 | whatever stands behind the size of a chunk, after a semicolon or a blank and up to the carriage return, makes no difference |
| HttpVariants.TrailerRead | x3me_libs-master/http-parser/http_parser.c:1775-1784 | header lines behind the last chunk are reported like those of the header, and the message is complete at the empty line behind them |
| HttpChunked.ChunkedBody | x3me_libs-master/http-parser/http_parser.c:1934-2052 | from the start of a chunk, the encoding of any non-empty chunks (section 4.1 of RFC 7230), in digits of either case, is read as exactly these chunks, and the message is complete at its last byte |
| HttpChunked.ChunkedBodyInBuffers | x3me_libs-master/http-parser/http_parser.c:1934-2052 | the same for every way of cutting it into buffers |
| HttpChunked.EventsAddUp | x3me_libs-master/http-parser/http_parser.c:1998-2052 | the body callbacks of a chunked body add up to the body; each chunk and the last chunk has one header and one end; the message is completed once |
| HttpHeaders.NameRead | x3me_libs-master/http-parser/http_parser.c:1298-1425 | every header name is reported as it stands, and the header state says exactly whether it is, in either case of its letters, one of the five that matter |
| HttpHeaders.PlainLine | x3me_libs-master/http-parser/http_parser.c:1248-1735 | a header of no interest is reported as it stands and changes nothing else |
| HttpVariants.TokenExact | x3me_libs-master/http-parser/http_parser.c:189-222 | the characters of a token by their codes, letters of either case folded together |
| HttpVariants.HeaderCharExact | x3me_libs-master/http-parser/http_parser.c:442-443 | the bytes that a strict parser takes in a header value |
| HttpVariants.NameRefused | x3me_libs-master/http-parser/http_parser.c:1248-1425 | a header line is refused at the first byte of its name that is no character of a token, but for the colon that ends the name and the line end where no name begins |
| HttpVariants.FoldedLine | x3me_libs-master/http-parser/http_parser.c:1708-1714 | a value that goes on in the next line, behind a blank, is reported as one value |
| HttpVariants.EmptyValue | x3me_libs-master/http-parser/http_parser.c:1427-1440 | a header without a value, with any blanks, is reported with an empty one and means nothing, whatever its name |
| HttpVariants.LfForCrLf | x3me_libs-master/http-parser/http_parser.c:1218-1773 | wherever a first line, a header line or the header may end, a line feed alone does exactly what it does behind a carriage return, errors and the rest of the stream included |
| HttpFraming.LengthLine | x3me_libs-master/http-parser/http_parser.c:1466-1590 | a Content-Length is accepted exactly if it is digits, with blanks among them, whose number is at most 18446744073709551609; then it is that number, and otherwise the message is refused |
| HttpFraming.BlanksPassedOver | x3me_libs-master/http-parser/http_parser.c:1565-1569 | the length with blanks is the number that is left when they are taken out |
| HttpFraming.BlankWithinLength | x3me_libs-master/http-parser/http_parser.c:1565-1569 | the input on which that is not the number written: `1 2` announces twelve bytes |
| HttpFraming.SecondLengthRefused | x3me_libs-master/http-parser/http_parser.c:1472-1476 | a second Content-Length is refused, even one that repeats the first |
| HttpFraming.WordLine | x3me_libs-master/http-parser/http_parser.c:1593-1735 | `chunked` as a Transfer-Encoding, and `keep-alive`, `close` or `upgrade` as a Connection, set exactly their flag, in letters of either case |
| HttpOptions.ChunkedExact | x3me_libs-master/http-parser/http_parser.c:1593-1602 | whatever the value of a Transfer-Encoding is, the chunked flag is set exactly if it is the one word `chunked`, in letters of either case, and blanks behind it |
| HttpOptions.OptionsExact | x3me_libs-master/http-parser/http_parser.c:1604-1681 | whatever the value of a Connection is, exactly the flags of the options are set that are found between its commas |
| HttpOptions.PlainOptions | x3me_libs-master/http-parser/http_parser.c:1604-1681 | if no element of the list is empty or the beginning of an option, these are exactly the elements that spell an option |
| HttpOptions.StubHidesNext | x3me_libs-master/http-parser/http_parser.c:1621-1681 | a list on which they are not: in `c,close` the option is missed |
| HttpOptions.EmptyHidesRest | x3me_libs-master/http-parser/http_parser.c:1604-1618 | and another: in `x,,close` the rest is passed over |
| HttpFraming.UpgradeLine | x3me_libs-master/http-parser/http_parser.c:1452-1455 | an Upgrade of any value is reported as it stands and sets its flag |
| HttpFraming.LineRead | x3me_libs-master/http-parser/http_parser.c:1248-1735 | each header line that is understood is reported as it stands and means to the parser what its name and value say, whatever line comes next |
| HttpFraming.LineMeans | x3me_libs-master/http-parser/http_parser.c:1248-1735 | the line adds exactly the flags and the length that its name and value mean, and touches nothing else that lasts |
| HttpRequestLine.MethodRead | x3me_libs-master/http-parser/http_parser.c:954-1051 | each of the 33 methods, given as its letters and a blank, is recognised, though the parser changes its mind on the way |
| HttpRequestLine.MethodsExact | x3me_libs-master/http-parser/http_parser.c:954-1051 | any other word where the method is due is refused as an invalid method |
| HttpRequestLine.UrlRead | x3me_libs-master/http-parser/http_parser.c:487-628 | a URL that the character function accepts is reported as it stands |
| HttpRequestLine.PathIsUrl | x3me_libs-master/http-parser/http_parser.c:566-579 | a solidus and any URL characters are such a URL |
| HttpUrl.UrlExact | x3me_libs-master/http-parser/http_parser.c:486-632 | which URLs are accepted, by a grammar of pieces: a path, or a scheme and an authority, or for CONNECT an authority alone, then a query and a fragment, each of its characters, and no two `@` side by side |
| HttpUrl.UrlRefused | x3me_libs-master/http-parser/http_parser.c:1053-1124 | any other is refused as an invalid URL |
| HttpUrl.FragmentAfterAuthority | x3me_libs-master/http-parser/http_parser.c:545-563 | a fragment right behind an authority is refused |
| HttpVariants.SimpleRequest | x3me_libs-master/http-parser/http_parser.c:1107-1115 | a request line that ends with the URL is one of version 0.9 |
| HttpRequestLine.RequestLineRead | x3me_libs-master/http-parser/http_parser.c:954-1246 | every request line is read for its method, URL and version, and begins a message |
| HttpVariants.NumberExact | x3me_libs-master/http-parser/http_parser.c:801-914 | a version or a status of any number of digits is the number they denote, exactly if that is at most 999, and is refused otherwise; a major version of a request does not begin with 0 |
| HttpMessage.BothLengthsRefused | x3me_libs-master/http-parser/http_parser.c:1786-1792 | a message with both a length and a chunked coding is refused at the end of its header |
| HttpMessage.BodyDecided | x3me_libs-master/http-parser/http_parser.c:1836-1880 | what follows the header is decided by length, coding, status, method and the answer of the callback as the kinds of bodies say |
| HttpMessage.OneKind | x3me_libs-master/http-parser/http_parser.c:1836-1880 | a header announces a body of one kind and one length only |
| HttpMessage.FlagsExact | x3me_libs-master/http-parser/http_parser.c:1708-1735 | after any header lines each flag is set exactly if some line sets it |
| HttpMessage.LengthExact | x3me_libs-master/http-parser/http_parser.c:1466-1480 | and the length is that of the one line that tells it |
| HttpMessage.OpenExact | x3me_libs-master/http-parser/http_parser.c:2096-2133 | where a message ends, told from its version and header lines alone: at major and minor above 0 the connection stays open unless some Connection line has the option `close`, below only if one has `keep-alive`; and it does not outlive a body without an end |
| HttpMessage.UnendingExact | x3me_libs-master/http-parser/http_parser.c:2096-2116 | which responses have no end of their own: those whose status is not 1xx, 204 or 304, that are not chunked and tell no length |
| HttpMessage.DeadRefuses | x3me_libs-master/http-parser/http_parser.c:711-719 | on a closed connection line ends are passed over, and any other byte is refused |
| HttpMessage.MessageRead | x3me_libs-master/http-parser/http_parser.c:1248-2052 | headers and body, of known length, in chunks, to the end of the stream or none, are reported piece by piece as they were written, and the message is complete at its last byte, or the parser stops there for another protocol |
| HttpRequest.RequestRead | x3me_libs-master/http-parser/http_parser.c:954-2052 | the same from the first byte of a request |
| HttpRequest.RequestInBuffers | x3me_libs-master/http-parser/http_parser.c:634-2091 | the same for every way of cutting the request into buffers |
| HttpRequest.RequestsEnd | x3me_libs-master/http-parser/http_parser.c:2096-2100 | a request is never read to the end of the stream |
| HttpRequest.KeptOpen | x3me_libs-master/http-parser/http_parser.c:2119-2133 | after a request the parser is ready for another exactly if version and Connection lines keep the connection open, and otherwise the connection is closed |
| HttpRequest.NothingAfterClose | x3me_libs-master/http-parser/http_parser.c:711-719 | then any byte but a line end is refused |
| HttpRequest.PipelineRead | x3me_libs-master/http-parser/http_parser.c:445-457 | requests one after the other, each of which keeps the connection open by its version and Connection lines, are each read as if alone: nothing of one is left over for the next |
| HttpRequest.PipelineInBuffers | x3me_libs-master/http-parser/http_parser.c:634-2091 | the same for every way of cutting the connection into buffers |
| HttpResponse.StatusLineRead | x3me_libs-master/http-parser/http_parser.c:741-952 | every status line is read for its version, status and reason phrase, by a parser for responses and by one for either kind of message |
| HttpResponse.ResponseRead | x3me_libs-master/http-parser/http_parser.c:741-2052 | every response is reported piece by piece as it was written; its body ends by its status, its length, its chunks, or with the stream |
| HttpResponse.ResponseInBuffers | x3me_libs-master/http-parser/http_parser.c:634-2091 | the same for every way of cutting the response into buffers |
| HttpResponse.KeptOpen | x3me_libs-master/http-parser/http_parser.c:2119-2133 | the same after a response, whose body must not last as long as the stream |
| HttpVariants.BothDecides | x3me_libs-master/http-parser/http_parser.c:741-756 | a parser for either kind takes `HT` for a response, `HE` for a request, and refuses any other message that begins with `H` |
| HttpVariants.BothMethodRead | x3me_libs-master/http-parser/http_parser.c:721-739 | it reads every other method as a parser for requests does |
| HttpResponse.BlankLinesBegin | x3me_libs-master/http-parser/http_parser.c:758-779 | each CR or LF before a response is reported as the beginning of a message |
| HttpResponse.BlankLinesSkipped | x3me_libs-master/http-parser/http_parser.c:954-957 | before a request they pass without a callback |
| JsonEquivalence.ParsersAgree | x3me_libs-master/rapidjson/reader.h:485-516 | on every text under all flags, the recursive and the iterative parser report the same events and stop at the same place, or fail with the same code at the same offset; only a stray `]`, `}`, `,` or `:` where the text starts gets two different codes |
| JsonEquivalence.ValueSteps | x3me_libs-master/rapidjson/reader.h:1649-1798 | from any state that expects a value, under any stack, the pushdown automaton does what recursive descent does with the value and then goes on |
| JsonReader.GenericReader.Parse | x3me_libs-master/rapidjson/reader.h:485-516 | the reader object, in either mode, leaves the events, position and error of the parser function, and an empty stack |
| JsonReader.GenericReader.ParseObject | x3me_libs-master/rapidjson/reader.h:587-654 | the member loop, on the moving stream, does what the parser function says |
| JsonReader.GenericReader.ParseArray | x3me_libs-master/rapidjson/reader.h:656-702 | the element loop, on the moving stream, does what the parser function says |
| JsonReader.GenericReader.ParseStringToStream | x3me_libs-master/rapidjson/reader.h:839-905 | the loop over a string gives its text, unescaped, or the error and its offset |
| JsonSpelling.StringExact | x3me_libs-master/rapidjson/reader.h:839-905 | which texts are strings and what they mean: bytes from the blank on, the eight short escapes, and four hexadecimal digits of either case with surrogate pairs; exactly these up to a quotation mark are read, as what they mean (section 2.5 of RFC 4627) |
| JsonSpelling.StringRefused | x3me_libs-master/rapidjson/reader.h:839-905 | a string is refused behind such pieces, for a fault that is found at the reported offset |
| JsonSpelling.SmallLetters | x3me_libs-master/rapidjson/reader.h:755-774 | lower-case digits mean what upper-case ones mean |
| JsonReader.GenericReader.ParseNumber | x3me_libs-master/rapidjson/reader.h:1133-1390 | the loops over a number give the event, or the error and its offset |
| JsonLexis.NumberSource | x3me_libs-master/rapidjson/reader.h:1133-1390 | a number that is read is a sign, digits without a superfluous zero, digits behind a point and an exponent, and is reported as what it means |
| JsonLexis.NumeralRead | x3me_libs-master/rapidjson/reader.h:1133-1390 | every such number that nothing continues is read so, unless it is too big; it is not if its integer part fits 64 bits and its exponent is negative or at most 308 |
| JsonReader.GenericReader.Transit | x3me_libs-master/rapidjson/reader.h:1649-1798 | a transition changes stream, stack, log and error as the automaton says |
| JsonReader.GenericReader.IterativeParse | x3me_libs-master/rapidjson/reader.h:1822-1854 | the iterative loop gives the events, position and error of the automaton |
| JsonNumber.IntegersExact | x3me_libs-master/rapidjson/reader.h:1146-1238 | an integer literal of any length is reported by the value its digits denote, in the first of Uint, Int, Uint64 and Int64 that holds it; a literal beyond 64 bits is never an integer |
| JsonNumber.DigitRunExact | x3me_libs-master/rapidjson/reader.h:1146-1200 | no accumulator leaves its width: an integer loop stops before the last digit exactly if the number of all of them exceeds the limit |
| JsonSound.ParseSound | x3me_libs-master/rapidjson/reader.h:485-516 | a text that parses has been reported as the events of exactly one value, with the true numbers of members and elements |
| JsonTexts.ParseExact | x3me_libs-master/rapidjson/reader.h:485-702 | exactly the documents of the grammar are parsed: values between gaps of blanks and, with their flag, comments, with a comma before a closing bracket only under its flag; each as the value that it means. Only a number that is too big may stop the parser |
| JsonTexts.PrefixExact | x3me_libs-master/rapidjson/reader.h:497-511 | with the flag to stop when done, exactly the texts that begin with a value |
| JsonTexts.CommaAtEnd | x3me_libs-master/rapidjson/reader.h:693-700 | `[1,]` is parsed exactly with that flag |
| JsonDocument.Rebuild | x3me_libs-master/rapidjson/document.h:2333-2373 | pushing the events of a value into a document leaves the stack it had and exactly that value on top |
| JsonDocument.ParseBuildsOneRoot | x3me_libs-master/rapidjson/document.h:2155-2170 | after a successful parse by either parser the stack holds the one root that is asserted, and it is the value that was reported |
| JsonDocument.DeepCopy | x3me_libs-master/rapidjson/document.h:2408-2417 | replaying a value into a fresh document gives the same value |
| JsonDocument.GenericDocument.Call | x3me_libs-master/rapidjson/document.h:2333-2373 | each handler function changes the stack in place as its event says |
| JsonDocument.GenericDocument.ParseStream | x3me_libs-master/rapidjson/document.h:2155-2170 | the document becomes the value that was read, and its stack is empty again; after an error it keeps the value it had |
| JsonDocument.GenericDocument.DeepCopyOf | x3me_libs-master/rapidjson/document.h:2408-2417 | the copy equals the value |
| JsonWriterObject.Writer.Prefix | x3me_libs-master/rapidjson/writer.h:437-456 | commas, colons and, for the pretty writer, line feeds and indentation before a value depend on the level stack as specified |
| JsonWriterObject.Writer.WriteString | x3me_libs-master/rapidjson/writer.h:345-417 | the loop over a string writes it between quotation marks with every byte escaped as it needs |
| JsonWriterObject.Writer.EndObject | x3me_libs-master/rapidjson/prettywriter.h:125-141 | the end of an object takes its level off the stack and, when pretty, puts the bracket on its own line unless the object is empty |
| JsonWriterObject.Writer.Accept | x3me_libs-master/rapidjson/document.h:1768-1805 | the traversal calls the writer with the events of the value, and appends exactly its rendering, which at the root is its layout |
| JsonWriter.WriteValue | x3me_libs-master/rapidjson/writer.h:172-232 | under any level stack, the events of a value append its rendering and leave the levels as they were, but for one more value |
| JsonLayout.RootLayout | x3me_libs-master/rapidjson/prettywriter.h:190-237 | what is written for a root value, by a layout that joins the parts of each container: each member and element of a pretty text on a line of its own with the indentation of its depth, the closing bracket on the line of the outer depth, one blank behind a colon, and `, ` between the elements of a single-line array |
| JsonLayout.MemberLine | x3me_libs-master/rapidjson/prettywriter.h:206-222 | every member begins right after a line feed and the indentation of its depth, behind the opening brace or a comma, and ends before a comma and the next such line or the line of the closing brace |
| JsonLayout.ElementLine | x3me_libs-master/rapidjson/prettywriter.h:195-205 | so does every element, unless arrays are on a single line |
| JsonLayout.PrettyIsCompact | x3me_libs-master/rapidjson/prettywriter.h:190-237 | the pretty text without the white space outside its strings is the compact text |
| JsonLayout.ByteWritten | x3me_libs-master/rapidjson/writer.h:345-417 | which bytes of a string are written as themselves, with a letter, or with digits |
| JsonRoundTrip.WriteThenRead | x3me_libs-master/rapidjson/writer.h:172-232 | for every value of nulls, bools, integers, byte strings, arrays and objects, the text of either writer in any style is read back by either parser, under all flags, as the same events, integers compared by value |
| JsonRoundTrip.DocumentRoundTrip | x3me_libs-master/rapidjson/document.h:2155-2170 | a document that is written and read again is the same document |
| JsonAscii.AsciiRoundTrip | x3me_libs-master/rapidjson/writer.h:368-398 | with an ASCII target the writer succeeds exactly on UTF-8, writes ASCII only, and the reader makes the same UTF-8 of its escapes and surrogate pairs (section 2.5 of RFC 4627) |
| Utf8.DecodeInvertsEncode | x3me_libs-master/rapidjson/encodings.h:102-176 | decoding inverts encoding on every sequence of scalar values (section 4 of RFC 3629) |
| Utf8.EncodeInvertsDecode | x3me_libs-master/rapidjson/encodings.h:102-176 | what decodes is the encoding of the scalar values it decodes to |
| Utf8.Exactness | x3me_libs-master/rapidjson/encodings.h:146-220 | a text decodes exactly if it is the encoding of some scalar values |
| Utf8.RangesDecide | x3me_libs-master/rapidjson/encodings.h:146-202 | a sequence of several bytes is accepted exactly if each byte after the lead is in its range |
| Utf8.Validate | x3me_libs-master/rapidjson/encodings.h:179-202 | validation accepts exactly what decoding accepts, stops where it stops, and copies the bytes |
| JsonPointer.IndexExact | x3me_libs-master/rapidjson/pointer.h:900-917 | the index of a number is its value exactly below 2^32; beyond, it is no index if the loop sees the wrap, and otherwise the value of another number |
| JsonPointer.NoIndex | x3me_libs-master/rapidjson/pointer.h:897-917 | a name with any other byte, or with a superfluous zero, has no index |
| JsonPointer.WrapMissed | x3me_libs-master/rapidjson/pointer.h:905-915 | the input on which the wrap is missed: 10000000000 is taken for 1410065408 |
| JsonPointer.StringifyInvertsParse | x3me_libs-master/rapidjson/pointer.h:941-972 | every accepted string but a fragment is written back as it was (sections 3 and 4 of RFC 6901) |
| JsonPointer.ParseInvertsStringify | x3me_libs-master/rapidjson/pointer.h:941-972 | names that are written are read back, as strings and as URI fragments (section 6 of RFC 6901); they can be written exactly if they may be any bytes, or are UTF-8 |
| JsonPointerSpelling.PointerExact | x3me_libs-master/rapidjson/pointer.h:802-932 | which strings are pointers and the names they mean: bytes as they are, `~0` and `~1`, and in a fragment unreserved characters and percent-encoded UTF-8 in digits of either case; exactly these are accepted, with the index of each name |
| JsonPointerSpelling.SmallTriplets | x3me_libs-master/rapidjson/pointer.h:980-1020 | triplets in small letters mean the same name |
| JsonPointerCode.GenericPointer.Parse | x3me_libs-master/rapidjson/pointer.h:802-932 | the loops over one name buffer of the size of the source give the tokens of the parser function, or its error and offset; no write is outside the buffer, on rejected pointers either |
| JsonPointerCode.GenericPointer.Transcode | x3me_libs-master/rapidjson/pointer.h:853-876 | percent-encoded UTF-8 is decoded into the buffer, every byte that is taken being put whether it is accepted or not, and the result is that of the decoder |
| JsonPointerCode.GenericPointer.ParseName | x3me_libs-master/rapidjson/pointer.h:840-894 | a name is written behind those before it, which stay as they are, and is never longer than its text |
| JsonPointerDom.CreateExact | x3me_libs-master/rapidjson/pointer.h:401-447 | `alreadyExist` is true exactly if the pointer resolved before, and then nothing changes |
| JsonPointerDom.GetSet | x3me_libs-master/rapidjson/pointer.h:610-612 | what was set is what is found, exactly if no child was made that its token does not find again |
| JsonPointerDom.SetOne | x3me_libs-master/rapidjson/pointer.h:401-447 | what setting a single token makes: an element replaced, or appended behind as many nulls as are missing; a member replaced or appended; or a new container in place of another type |
| JsonPointerDom.NullInNameLost | x3me_libs-master/rapidjson/pointer.h:430-437 | an input on which it is not found: a name with a null in it |
| JsonPointerDom.SetKeeps | x3me_libs-master/rapidjson/pointer.h:610-612 | a pointer that resolved before and parts from the one that is set keeps its value |
| JsonPointerDom.EraseExact | x3me_libs-master/rapidjson/pointer.h:711-749 | erasing succeeds exactly if the pointer is not the root and resolves; otherwise nothing changes |
| JsonPointerDom.EraseKeeps | x3me_libs-master/rapidjson/pointer.h:711-749 | a pointer that parts above the erased value keeps its value |
| JsonPointerDom.EraseSiblings | x3me_libs-master/rapidjson/pointer.h:732-749 | the other members keep their names, and later elements move down by one |
| JsonPointerDom.Resolve | x3me_libs-master/rapidjson/pointer.h:479-507 | the loop over the tokens finds what the pointer denotes, or tells the first token that does not resolve |
| Bencoding.EncoderExact | x3me_libs-master/x3me_libs/bencoding.cpp:384-450 | the encoder succeeds exactly on entries that are defined and not nested too deep, and appends their encoding |
| Bencoding.DecoderInvertsEncoder | x3me_libs-master/x3me_libs/bencoding.cpp:266-382 | whenever the encoder succeeds, the decoder reads the equal entry from its output, whatever bytes follow, stops exactly at its end, and never meets its recursion limit |
| Bencoding.RoundTrip | x3me_libs-master/x3me_libs/bencoding.cpp:452-467 | decoding what was encoded gives the equal entry and ends with the text |
| BencodingGrammar.DecoderExact | x3me_libs-master/x3me_libs/bencoding.cpp:266-382 | exactly the texts of the grammar are decoded, each as the entry it means, in which a dictionary has its members in order, one for each key read, with the value read last for it |
| BencodingGrammar.DecodedInOrder | x3me_libs-master/x3me_libs/bencoding.cpp:317-346 | in whatever is decoded every dictionary at every depth is in the order of its keys |
| BencodingGrammar.SortedAndReplaced | x3me_libs-master/x3me_libs/bencoding.cpp:317-346 | two texts that show it: keys out of order, and a key that comes twice |
| Bencoding.InsertKeeps | x3me_libs-master/x3me_libs/bencoding.cpp:324-346 | a dictionary stays in the order of its keys, and a new value is found under its key |
| BencodingCode.Bencode | x3me_libs-master/x3me_libs/bencoding.cpp:459-467 | the appending recursion succeeds exactly on such entries, with their encoding |
| BencodingCode.EncodeRecursive | x3me_libs-master/x3me_libs/bencoding.cpp:384-450 | the appending recursion does what the encoder function says, partial output included |
| BencodingCode.DecodeRecursive | x3me_libs-master/x3me_libs/bencoding.cpp:266-382 | the recursion over one moving iterator and result entry does what the decoder function says, errors included |
| BencodingCode.ReadUntil | x3me_libs-master/x3me_libs/bencoding.cpp:249-264 | reads up to the token, or to the end of the text |
| BdecodeWalk.OneTokenGood | x3me_libs-master/bdecode/bdecode.cpp:754-905 | every round of the main loop keeps the invariant that closed containers can be walked and that open ones take the items read so far |
| BdecodeWalk.LinkedExactly | x3me_libs-master/bdecode/bdecode.cpp:733-943 | every buffer, valid or not, leaves tokens that can be walked, with names for keys, an even number of items in dictionaries and the root leading to its end, exactly if they are no more than 2^29 + 1; as they always are after a success |
| BdecodeLimits.RoomSuffices | x3me_libs-master/bdecode/bdecode.hpp:155-215 | if the smaller of token limit and size, together with the depth limit, is less than 2^29 - 1, then the tokens of any buffer are linked so, and all fields fit their bits |
| BdecodeLimits.DefaultLimits | x3me_libs-master/bdecode/bdecode.hpp:405-407 | the limits taken by default meet that condition for every size |
| BdecodeLimits.RunLength | x3me_libs-master/bdecode/bdecode.cpp:754-940 | how many tokens a run can leave, unwinding included |
| BdecodeLimits.TooManyTokens | x3me_libs-master/bdecode/bdecode.cpp:907-940 | for unclosed lists around an empty string and empty lists, under limits that admit them, the tokens are linked exactly if they are no more than that |
| BdecodeLimits.NestNotWalkable | x3me_libs-master/bdecode/bdecode.cpp:907-940 | such a buffer of 2^29 - 1 bytes leaves tokens that cannot be walked |
| BdecodeSpans.RunSpans | x3me_libs-master/bdecode/bdecode.cpp:754-940 | the tokens of every input refer to bytes of the buffer, in order |
| BdecodeRoundTrip.DecoderInverts | x3me_libs-master/bdecode/bdecode.cpp:733-943 | the encoding of an entry is accepted, whatever bytes follow, exactly if depth, token count and string lengths are within the limits and it is not a bare empty string that ends the buffer; and then it leaves exactly the tokens of the entry |
| BdecodeGrammar.DecoderExact | x3me_libs-master/bdecode/bdecode.cpp:733-943 | exactly the buffers that begin with a text of the grammar within the limits are accepted: integers of up to twenty digits, lengths of up to eight, with leading zeros, and names in any order; each with exactly its tokens |
| BdecodeRoundTrip.EmptyStringRefused | x3me_libs-master/bdecode/bdecode.cpp:880-882 | the input that is refused: an empty string that ends the buffer |
| BdecodeValues.RootReads | x3me_libs-master/bdecode/bdecode.cpp:340-690 | after such a success the accessors give back the entry, at every depth, but for the least 64-bit integer, and the data section of each node is its own encoding |
| BdecodeValues.LeastIntegerReadsAsZero | x3me_libs-master/bdecode/bdecode.cpp:646-664 | the input that reads wrong: the least 64-bit integer decodes, but its value is given as 0 |
| BdecodeCode.Decode | x3me_libs-master/bdecode/bdecode.cpp:733-943 | the loops over the token vector and the stack array do what the decoder function says, on every buffer, and leave a node whose tokens can be read unless they are too many |
| BdecodeCode.Decoding.UnwindOne | x3me_libs-master/bdecode/bdecode.cpp:907-940 | one container is ended as the unwinding says |
| BdecodeNode.Node.ListAt | x3me_libs-master/bdecode/bdecode.cpp:350-382 | whatever was looked up before, the node is that of the item a walk from the first one finds |
| BdecodeNode.Node.ListSize | x3me_libs-master/bdecode/bdecode.cpp:400-429 | whatever was looked up before, the size is that counted from the first item |
| BdecodeNode.Node.DictAt | x3me_libs-master/bdecode/bdecode.cpp:431-479 | whatever was looked up before, name and value are those of that member |
| BdecodeNode.Node.DictSize | x3me_libs-master/bdecode/bdecode.cpp:481-517 | whatever was looked up before, the size is half the number of items |
| BdecodeNode.Node.DictFind | x3me_libs-master/bdecode/bdecode.cpp:519-553 | the value of the first member with that name, or no node if there is none |
| BdecodeNode.Node.IntValue | x3me_libs-master/bdecode/bdecode.cpp:646-664 | the value that the digits of the token denote, or 0 if it overflows |
| MemoryPool.AllotExact | x3me_libs-master/rapidjson/allocators.h:176-188 | the block lies in the used part of one chunk, is aligned and apart from all live blocks, exactly if no sum wraps |
| MemoryPool.ReallotExact | x3me_libs-master/rapidjson/allocators.h:191-222 | the new block takes the place of the old one so, exactly if no sum wraps |
| MemoryPool.OnlyLastGrows | x3me_libs-master/rapidjson/allocators.h:206-211 | the test for growth in place is met by the last block of the head chunk only |
| MemoryPool.AlignExact | x3me_libs-master/rapidjson/allocators.h:176-181 | aligning pads to eight bytes, unless the sum wraps, and then it gives 0 |
| MemoryPool.LargestRequest | x3me_libs-master/rapidjson/allocators.h:176-188 | a request of 2^64 - 1 bytes gets a block of none |
| MemoryPool.SixteenShort | x3me_libs-master/rapidjson/allocators.h:176-188 | on a chunk with 16 bytes used, a request of 2^64 - 16 makes the chunk count as unused |
| MemoryPool.MemoryPoolAllocator.Malloc | x3me_libs-master/rapidjson/allocators.h:176-188 | the allocator stays sound exactly if no sum wraps |
| MemoryPool.MemoryPoolAllocator.Realloc | x3me_libs-master/rapidjson/allocators.h:191-222 | so it does on moving or growing a block, and then the block keeps its bytes up to the smaller size and no other live block changes |
| MemoryPool.MemoryPoolAllocator.Clear | x3me_libs-master/rapidjson/allocators.h:145-156 | every chunk but that of the user is given back once, and none is in use |
| MemoryPool.MemoryPoolAllocator.Size | x3me_libs-master/rapidjson/allocators.h:168-173 | the loop adds up the used bytes, which are no more than the capacity |
| Bitfield.Bitfield.Resize | x3me_libs-master/x3me_libs/bitfield.cpp:31-91 | the bits up to the smaller size are kept, new ones have the value asked for, and the bits behind the last are zero |
| Bitfield.Bitfield.AssignBytes | x3me_libs-master/x3me_libs/bitfield.cpp:90-104 | a bit for each byte that is not 0 |
| Bitfield.Bitfield.AssignBits | x3me_libs-master/x3me_libs/bitfield.cpp:106-112 | the packed bits, and zeros behind them |
| Bitfield.Bitfield.Append | x3me_libs-master/x3me_libs/bitfield.cpp:114-136 | the bits one after the other, by copied bytes or bit by bit alike |
| Bitfield.Bitfield.All | x3me_libs-master/x3me_libs/bitfield.cpp:160-174 | whether all bits are set |
| Bitfield.Bitfield.Any | x3me_libs-master/x3me_libs/bitfield.cpp:176-190 | whether some bit is set |
| Bitfield.Bitfield.SetBit | x3me_libs-master/x3me_libs/bitfield.h:143-154 | one bit changes, and no other |
| Bitfield.FirstBitHighest | x3me_libs-master/x3me_libs/bitfield.h:143-154 | the bits of a byte of storage are its binary digits from the most significant one on |
| Bitfield.ResizedBit | x3me_libs-master/x3me_libs/bitfield.cpp:31-91 | the same, bit by bit, of the bytes that resizing leaves |
| Bitfield.StorageExact | x3me_libs-master/x3me_libs/bitfield.h:156-159 | the storage computed for a size holds its bits exactly if adding 7 does not wrap; otherwise there is none |
| Bitfield.AppendedStorageExact | x3me_libs-master/x3me_libs/bitfield.cpp:114-119 | appended bits find room exactly if neither sum wraps |

## Findings

Properties that one would expect and that the code does not have, each with an input and the exact condition.

- A control character in a header value is refused or not as the stream is cut into buffers. Input:
  `GET / HTTP/1.1`, CR, LF, `x: ab`, byte 1 (`HttpSkip.ControlCharacterSkipped`). The cut matters exactly if
  the stream, read byte by byte, breaks off at such a byte, and the byte before it was one of a value of no interest,
  but not its first (`HttpSplit.SplitInvariance`, `HttpSkip.ControlAfterValue`); for a lenient parser it never does
  (`HttpSplit.NothingToSkip`).
- A Content-Length may have blanks among its digits: `1 2` is twelve (`HttpFraming.BlankWithinLength`). Exactly the
  values of digits and blanks that begin with a digit are taken (`HttpFraming.LengthLine`).
- The six lengths from 18446744073709551610 to 2^64 - 1 are refused, though all but the last could be held
  (`HttpFraming.LengthLine`); so are the chunk sizes beyond 2^64 - 17 (`HttpChunked.SizeExact`).
- A byte from 128 on is a digit 0 of a chunk size, because the table of digits is half as long as declared
  (`HttpChunked.SizeDigitsExact`).
- An element of a Connection list that is the beginning of an option hides the next one: in `c,close` the option is
  missed; and behind an empty element nothing more is read, as in `x,,close` (`HttpOptions.StubHidesNext`,
  `HttpOptions.EmptyHidesRest`). What is found is told for all lists (`HttpOptions.OptionsExact`), and without such
  elements it is what is there (`HttpOptions.PlainOptions`). A Transfer-Encoding counts as chunked only if it is that
  one word, so `gzip, chunked` does not (`HttpOptions.ChunkedExact`).
- A fragment right behind the authority is refused, as in `http://host#top` (`HttpUrl.FragmentAfterAuthority`); all URLs
  that are accepted are told by `HttpUrl.UrlExact`.
- Each CR or LF before a response calls `on_message_begin`, before a request none does
  (`HttpResponse.BlankLinesBegin`, `HttpResponse.BlankLinesSkipped`).
- The two JSON parsers differ in one error code: for a stray `]`, `}`, `,` or `:` where the text starts, after blanks and
  comments, and for nothing else
  (`JsonEquivalence.ParsersAgree`).
- The overflow test for the index of a pointer token misses some wraps: 10000000000 is taken for 1410065408
  (`JsonPointer.WrapMissed`, `JsonPointer.IndexExact`).
- What a pointer sets is not always found by it: not after `-` on an array, nor, on a name with a null in it, when the
  member was made (`JsonPointerDom.NullInNameLost`, `JsonPointerDom.GetSet`).
- Distances between tokens have 29 bits, and the unwinding of an unfinished buffer does not look whether they suffice. A buffer of
  2^29 - 1 bytes, under limits that admit it, leaves tokens that cannot be walked (`BdecodeLimits.NestNotWalkable`).
  Tokens are linked exactly if they are at most 2^29 + 1 (`BdecodeWalk.LinkedExactly`); the default limits always
  keep them so (`BdecodeLimits.RoomSuffices`, `BdecodeLimits.DefaultLimits`).
- A bare empty string that ends the buffer is an unexpected end of file (`BdecodeRoundTrip.EmptyStringRefused`); of the
  encodings within the limits it is the only one that is refused (`BdecodeRoundTrip.DecoderInverts`).
- The least 64-bit integer decodes, but reads as 0 (`BdecodeValues.LeastIntegerReadsAsZero`).
- Near 2^64 the sums of the pool allocator wrap: a request of 2^64 - 1 gets a block of no bytes, and one of 2^64 - 16
  makes a chunk with 16 used bytes count as unused (`MemoryPool.LargestRequest`, `MemoryPool.SixteenShort`). All stays
  sound exactly if no sum wraps (`MemoryPool.AllotExact`, `MemoryPool.ReallotExact`).
- A bitfield of more than 2^32 - 8 bits gets no storage (`Bitfield.StorageExact`, `Bitfield.AppendedStorageExact`).

## Left out

- HttpParser.HttpParser.Execute: says nothing of the fields after HPE_HEADER_OVERFLOW but the error, and that it comes only when the bytes of the buffer take the header counter past its limit; the counter counts the last byte of a buffer that ends inside a header line twice, so where exactly it strikes depends on the cut, and it is not among the fields compared
- HttpParser.HttpParser.Execute: takes buffers shorter than 2^32 - 81920 bytes for its agreement with the steps, so that the 32-bit header counter does not wrap within one
- HttpParser.HttpParser.Execute: after an error the run of data being read has not been reported, and after a bad value byte `header_state` is that of the start of the line
- HttpMessage.MessageRead: the messages that are read whole have one blank between colon and value, values that are not empty and not continued, no trailers and no chunk parameters, and lines that end in CR and LF; what each of these other forms does is proved by itself in `HttpVariants`, of any parser that meets it
- HttpRequest.RequestRead: starts at a parser for requests; how a parser for either kind begins is told by `HttpVariants.BothDecides` and `HttpVariants.BothMethodRead`
- HTTP callbacks that fail or pause the parser, `http_parser_parse_url`, and the non-strict build
- JSON numbers with a fraction or an exponent are one event whose value is not modelled; whether digits overflow a double is decided by their exact value, not by rounded steps
- JsonTexts.ParseExact: does not say which numbers beyond 64 bits or with a large exponent are too big, and with which code other texts than broken strings are refused; both parsers give the same code
- BdecodeGrammar.DecoderExact: does not say with which code other buffers are refused
- JSON parse flags for numbers as strings, NaN and Inf, full precision, encoding validation and in-situ parsing; SSE paths; encodings but UTF-8 and the ASCII target
- JSON handlers that return false, so a parse is never terminated by its handler
- JsonSound.ParseSound: sizes are the true ones for texts of less than 4 GiB, as counts have 32 bits
- JsonWriterObject.Writer.Prefix: one class stands for `Writer` and `PrettyWriter`, which differ by their style
- JsonPointerDom.GetSet: the pointer operations on a document are functions from value to value; that they change the document in place, and where members lie in memory, is not captured
- JSON value comparison, short strings, allocators behind values, and move semantics
- `rapidjson/schema.h`, which rests on hashes and on a regular-expression engine that is not part of this model
- Bdecode: pointers into the buffer are offsets, so that adding a huge string length to a pointer does not wrap
- BdecodeNode.Node.ListAt: nodes share the token vector of their root by value; copying, swapping and clearing nodes is not modelled, nor are the typed look-ups and `print_entry`
- BencodingCode.DecodeRecursive: the two number parsers of `utilities.h` are parameters, of which the round trip asks that they read decimal numbers; `std::map` is a sequence in the order of its keys
- MemoryPool.MemoryPoolAllocator.Malloc: what the base allocator returns is a parameter, a fresh region or null; the default base allocator is not modelled
- Bitfield.Bitfield.Resize: asks for sizes whose storage can be computed in 32 bits; `Bitfield.StorageExact` says what happens to the others
- URL coding, addresses, JSON-RPC, loaders and the programs under xproxy-beta, which would add easy members or input and output
