# A verified model of a small HTTP proxy

The proxy accepts clients, parses their requests, opens one bridge connection per client to the
host that a request names, forwards the request, parses what the bridge answers, and prints it to
the client.  Everything happens in one thread that dispatches epoll events.  This project models

* the two **incremental message parsers** and their printers, including the chunked coding, on
  arbitrary bytes that arrive in arbitrary fragments, and
* the **proxy as a state machine**: the tables that `tcp_server`, `http_server`, `http_connection`
  and `main` edit, under any list of events, with descriptors reused at will.

`dafny verify dfyconfig.toml` checks everything.

| file | content |
|---|---|
| Outcomes, Text, Numbers, NumberText | results that may be exceptions; `find`, `substr`, `stoi`, `stoul`, trimming, hexadecimal printing |
| StartLines, Headers, RawHeads | start lines and header blocks, shared by requests and responses, and which bytes of them cannot be read |
| ChunkedCoding | the chunk decoder and encoder |
| Responses, ResponseRelay, Conservation | the response parser as a value, streaming, relaying, byte accounts |
| Requests, RequestRelay, RequestConservation | the same for requests |
| Rejections, ResponseRejections | exactly which bytes the request and the response parser throw on |
| HttpResponseObject, HttpRequestObject | the two parser objects, with the program's loops, proved against the values |
| BridgeStream, ClientStream | what a bridge's data handler makes of the stream it reads, and what a client makes of what it is sent |
| WireFormat | messages as literal bytes, read and printed |
| Epoll | the handler registry and its object |
| StateMachine, Safety, Routing, Dispatching, Delivery | the proxy's transitions, their invariant, what each flag and table does, and whole-run theorems |
| ProxyObject | the proxy object, whose handlers edit the tables in place |

## How to read the model

*Positions.*  A search that finds nothing returns `npos`, and the program adds 1, 2 or 4 to the
result without looking, which wraps round to 0, 1 or 3.  Positions are `int`s here and `npos` is -1,
so the same additions give the same numbers.

*Exceptions* are `Failure` results: `OutOfRange` from `substr` or an oversized number,
`InvalidArgument` from a number without digits.  `NeverReturns` stands for the phase loop that no
branch leaves when a complete message is given more data.  What an exception leaves in a
half-parsed object is not described: a response is reset, a request ends the program.

*Chunk sizes* are taken modulo 2^32, and `size + 2` wraps as in the 32-bit variable.

*Header maps* are printed in an explicit enumeration order.  `std::map` uses byte order; the
theorems hold for every order.

*States.*  Parser states are immutable values with functions on them; the objects in
`HttpResponseObject.dfy`, `HttpRequestObject.dfy`, `Epoll.dfy` and `ProxyObject.dfy` update fields in place and are
proved to follow those functions.

*Runs.*  An event carries what the kernel contributes: the bytes a read returns and the descriptor
that accept or connect returns.  `Legal` says only that such a descriptor is not open at that
moment; it may have been closed a step before.  Branches the proxy should never take (an
`operator[]` that would open a connection to localhost, a closure whose connection is gone, a
parser that spins) are in the model as faults, and are proved unreachable.

## What fails, and exactly when

Four statements one would like to have are false of the code; each is replaced by its exact limit.

* *A chunked message survives any fragmentation.*  Cut behind its start line, and with size lines
  that have no leading zeros, it does if and only if no cut falls strictly inside the final
  `0 CRLF CRLF` (`CutTheorem`).  A cut inside the start line throws if and only if the part of the
  code that was seen is not a number or the cut is right behind the second blank (`CutStartLine`);
  inside the reason or its line break it throws nothing and misleads (`CutReasonMisleads`).
  A cut inside a size line of digits with leading zeros leaves the parser where the sender is if
  and only if the digits before the cut announce something, and more, with its CRLF, than stands
  behind the first of them (`SizeLineCut`, `CutSizeLine`; `LeadingZerosEndEarly` is an input).
* *A response is relayed unchanged.*  Read from its own print by a parser that has seen nothing, it
  is if and only if it has no Content-Length (`RelayTheorem`): `commit` appends one CRLF too many to
  a counted body (`CountedIsNotRelayed` is an input).  Requests likewise.  On one connection the
  damage stays: a client that reads as the proxy reads gets exactly the responses before the first
  counted one; that one and everything behind it, counted or not, disappears into its body without
  an exception (`ClientReads`, and for the whole proxy `SystemEndToEnd`).  The repository's README
  promises keep-alive and chunked support without this exception.
* *Every received byte is in one place.*  In every run it is if and only if no chunk is taken whose
  size is 2^32-2 or 2^32-1 modulo 2^32 while more stands behind its size line than the 0 or 1 bytes
  that size + 2 wraps round to (`Doubles`, `BytesAreConserved`; `DecodeConserves` for one call of
  the decoder): then what goes beyond those is both in the body and in the buffer.
  `WrappedSizeDuplicates` is an input on which no account exists, `WrappedSizeAloneIsHarmless` one
  with such a size on which nothing is doubled.
* *The proxy never stops on its own.*  Leaving aside the ends that the operating system can bring
  about and the model does not have (the signal of a broken pipe, a read or fcntl that fails), it
  stops exactly when an accept fails, or when the bytes of a client have no request line in their first fragment, or a header field
  with an empty value, or a header block that is over and whose last Content-Length is not a number
  that fits (`RunEndsExactly`, `Rejected`).  An empty value is legal by section 3.2 of RFC 7230
  (`EmptyFieldEndsRun`).

## Model

| member | source | states |
|---|---|---|
| `Text.FindCrlf` | src/http_response.cpp:66 | the first line break and no earlier one, or none at all |
| `Text.TrimIsTrimmedPiece` | src/http_response.cpp:16-31 | trimming keeps a contiguous piece without white space at its ends, and drops only white space |
| `Text.SpaceCodes` | src/http_response.cpp:16-26 | white space is the six codes of the "C" locale and no others |
| `Text.CrlfCodes` | src/http_response.cpp:66 | a line break is the codes 13 and 10 |
| `Numbers.StoulOfIntToHex` | src/http_response.cpp:156-164 | base-16 `stoul` undoes the zero-padded `0x` printer for every 64-bit number and width |
| `Numbers.StoiOfToString` | src/http_response.cpp:195-196 | a printed status code is read back as the same 32-bit number |
| `NumberText.StoulOfDigit` | src/http_response.cpp:108-109 | each of the sixteen digits, small or capital, is read as its place in the alphabet of digits |
| `NumberText.StoulAppends` | src/http_response.cpp:108-109 | one more digit makes 16 times as much and the digit, until 64 bits are not enough, and then throws |
| `NumberText.StoulIgnoresCase` | src/http_response.cpp:108-109 | the case of the digits does not matter |
| `NumberText.StoulStops` | src/http_response.cpp:108-109 | what follows the digits is not looked at |
| `NumberText.StoulDropsPrefix` | src/http_response.cpp:108-109 | a prefix `0x` or `0X` before a digit is dropped |
| `NumberText.StoulOfLonePrefix` | src/http_response.cpp:108-109 | without a digit behind it only its zero is read |
| `NumberText.StoulOfSign` | src/http_response.cpp:108-109 | a plus sign changes nothing, a minus sign negates modulo 2^64 |
| `NumberText.NumbersSkipSpace` | src/http_response.cpp:56 | white space in front is skipped, by both number routines |
| `NumberText.NoNumber` | src/http_response.cpp:56 | what begins with neither white space, sign nor digit is no number |
| `NumberText.StoiAppends` | src/http_response.cpp:56 | one more digit makes ten times as much and the digit, up to 2147483647 |
| `NumberText.StoiOfDigit` | src/http_response.cpp:56 | each of the ten digits is read as itself |
| `NumberText.StoiOfSign` | src/http_response.cpp:89 | signs before digits |
| `NumberText.StoiBounds` | src/http_response.cpp:89 | the four bounds of 32 bits |
| `NumberText.ToStringIsDecimal` | src/http_response.cpp:195-196 | a number of 0 or more is printed as decimal digits without leading zeros, a negative one as a minus sign and its opposite |
| `NumberText.IntToHexIsHex` | src/http_response.cpp:156-164 | `0x`, then small digits only, to the width if the number fits |
| `Numbers.ValueBeatsLength` | src/http_response.cpp:108-118 | k hexadecimal digits without a leading zero announce at least k bytes |
| `ChunkedCoding.DecodeResumes` | src/http_response.cpp:102-125 | on any bytes: a decoder that stops for lack of data and goes on later ends as if it had got everything at once, provided each chunk it took had its whole size line in the buffer |
| `ChunkedCoding.DecodeWholeMessage` | src/http_response.cpp:103-125 | any partition into non-empty chunks, whatever they contain, decodes to the concatenated data with nothing left |
| `ChunkedCoding.PartialSizeLine` | src/http_response.cpp:106-122 | a size line of digits, with or without leading zeros, cut after some digits or after its CR, waits for the rest if and only if the digits that are there announce something, and more than stands behind the first |
| `ChunkedCoding.SizeLineCut` | src/http_response.cpp:103-125 | at such a cut behind whole chunks the decoder has taken exactly those chunks and nothing else, under the same condition and no other |
| `ChunkedCoding.QuietCutWaits` | src/http_response.cpp:103-125 | at every quiet cut the decoder waits, having taken only whole chunks |
| `ChunkedCoding.CutTerminatorThrows` | src/http_response.cpp:111-116 | every cut strictly inside the terminator throws |
| `ChunkedCoding.LeadingZerosEndEarly` | src/http_response.cpp:106-116 | concrete input: three zeros of a size line are taken for the end of the message |
| `ChunkedCoding.DecodeAccount` | src/http_response.cpp:103-125 | on any bytes that do not throw: the buffer is a list of pieces, each divided as its own size line declares, and what is left; the body grows by exactly the data of the pieces, or by more if the buffer doubles |
| `ChunkedCoding.AccountIsUnique` | src/http_response.cpp:103-125 | a buffer can be divided in one way only |
| `ChunkedCoding.RoundsAreUnique` | src/http_response.cpp:103-125 | and so can a stream, given the fragments it arrives in, if every call takes all it can |
| `ChunkedCoding.DecodeFails` | src/http_response.cpp:108-117 | the decoder throws exactly when, behind pieces in order, it comes to a size line that is no number or a size of zero without the bytes that are skipped with it |
| `ChunkedCoding.DecodeConserves` | src/http_response.cpp:102-124 | an account of buffer and body exists if and only if no chunk is taken with a size that wraps round and more bytes behind it than the wrapped sum |
| `ChunkedCoding.WrappedSizeDuplicates` | src/http_response.cpp:102-124 | concrete input: a size of 2^32-2 puts a byte into the body and leaves it in the buffer, and no account exists |
| `ChunkedCoding.WrappedSizeAloneIsHarmless` | src/http_response.cpp:102-124 | concrete input: the same size with nothing behind it doubles nothing |
| `ChunkedCoding.DecodeOfEncode` | src/http_response.cpp:176-187 | for every body, decoding the encoder's output gives that body; what is left is the terminator if the length is a multiple of 100, and nothing otherwise |
| `ChunkedCoding.EncodedSize` | src/http_response.cpp:176-187 | n bytes are encoded in exactly n + 14 * (n / 100) + 27 |
| `ChunkedCoding.EncodeBody` | src/http_response.cpp:176-187 | the block loop writes the full blocks, the remainder and the last-chunk |
| `WireFormat.ChunkIsTaken` | src/http_response.cpp:108-124 | a chunk whose line is a number, modulo 4294967296, is taken with that many bytes of data, and the two bytes behind it are skipped, whatever they are |
| `WireFormat.ZeroIsTaken` | src/http_response.cpp:111-116 | a size of zero modulo 4294967296 ends the message with two more bytes |
| `WireFormat.ChunkWaits` | src/http_response.cpp:118-122 | a chunk that is not all there stays in the buffer |
| `WireFormat.CapitalSizeIsRead` | src/http_response.cpp:108-109 | concrete input: a chunk of ten bytes whose size is `A` |
| `WireFormat.EncodedBlocks` | src/http_response.cpp:176-182 | each full block is printed as `0x00000064`, CRLF, its hundred bytes, CRLF |
| `WireFormat.EncodedEnd` | src/http_response.cpp:183-187 | behind them: the size of the rest in sixteen digits, the rest, and the last-chunk |
| `Headers.HeaderPhaseResumes` | src/http_response.cpp:64-82 | on any bytes and at any cut, even between CR and LF, parsing headers in two goes is parsing them in one, exceptions included |
| `Headers.HeaderBlock` | src/http_response.cpp:64-82 | a header block is folded line by line into the map, in order, and stops behind its empty line |
| `Headers.HeaderPhaseConserves` | src/http_request.cpp:35-53 | what the phase took is exactly the raw lines, and the map is their fold |
| `Headers.RepeatedNames` | src/http_response.cpp:146-149 | of repeated names the first line decides in a response, the last in a request |
| `Headers.NamesOfFold` | src/http_request.cpp:81-84 | a name is in the map exactly when a line has it |
| `RawHeads.HeaderPhaseFails` | src/http_response.cpp:77-81 | the header phase throws exactly when a line it meets is a name and a colon and nothing else |
| `RawHeads.SaysExactly` | src/http_request.cpp:81-84 | the folded map gives a name exactly the value that the deciding line, first or last, gives it |
| `Headers.FoldCanonical` | src/http_response.cpp:78-81 | parsed names hold no colon, names and values no CRLF, and response values are trimmed |
| `Headers.FieldLine` | src/http_response.cpp:79-81 | a line with a colon names what stands before it, one byte behind it is skipped unseen; responses keep the first value and trim it, requests take the new one as it is |
| `Headers.ColonlessLine` | src/http_request.cpp:50-52 | a line without a colon is its own name, and its value but for the first byte |
| `Headers.PrintedReadsBack` | src/http_response.cpp:197-200 | printing a parsed header map in any order and folding the lines gives the same map |
| `Headers.RawLinesOfPrint` | src/http_request.cpp:104-108 | a printed block is one line for each name, the name, `: ` and the value, byte for byte, and an empty line |
| `Headers.PrintHeaders` | src/http_response.cpp:197-201 | the printing loop writes those lines, byte for byte, and an empty one |
| `Responses.Resumes` | src/http_response.cpp:33-139 | once the start line is whole, on any bytes: if the parser is waiting after u, and its decoder took only chunks whose size line it had seen whole, then u and v in two fragments is u + v in one, up to the very exception |
| `Responses.FeedIsOneShot` | src/http_response.cpp:33-139 | with a whole start line in the first, feeding any fragments is feeding their concatenation, while the parser waits like that at every cut |
| `Responses.OneShot` | src/http_response.cpp:44-139 | every well-formed response completes with its own status, first header values and body, nothing left |
| `Responses.CutIndependence` | src/http_response.cpp:44-139 | the same for every quiet fragmentation, and before the last fragment the parser is waiting |
| `Responses.CutTheorem` | src/http_response.cpp:111-116 | with bare size lines and a whole start line a chunked response survives its cuts if and only if none is strictly inside the terminator |
| `Responses.CutStartLineThrows` | src/http_response.cpp:50-63 | every response cut behind the first or the second blank of its start line throws, and what |
| `ResponseRejections.CutStartLine` | src/http_response.cpp:50-63 | a start line cut anywhere throws exactly if the part of the code that was seen is not a number, or the cut is right behind the second blank |
| `ResponseRejections.CutReasonMisleads` | src/http_response.cpp:57-63 | cut inside the reason or its line break, the parser goes on with the wrong reason and with the same bytes, less one, as a header line |
| `ResponseRejections.TitleFails` | src/http_response.cpp:50-63 | reading the start line throws exactly when nothing stands behind its second blank or what stands between the blanks is not a number |
| `ResponseRejections.ThrowsExactly` | src/http_response.cpp:44-139 | in every run, an incomplete response parser throws on a fragment exactly when the bytes so far have no start line or code in the first fragment, a field with an empty value, an ended block whose first Content-Length is not a number that fits, or chunks that lead the decoder to a size line that is no number or an end line that is not all there |
| `Responses.CutSizeLine` | src/http_response.cpp:93-125 | a response cut inside a size line of digits: the parser is where the sender is if and only if the part before the cut is kept |
| `Responses.ContentLengthCompletion` | src/http_response.cpp:86-92 | the body is everything received; it completes at this fragment if and only if the total is the declared length |
| `Responses.ParseIsTheLoop` | src/http_response.cpp:48-130 | the loop, turn by turn, leaves with what the parse function says after finitely many turns, or that function says it never returns and no number of turns leaves it |
| `Responses.SpinsWhenComplete` | src/http_response.cpp:48-130 | more data keeps the loop going for ever exactly when the message was complete |
| `ResponseRelay.FeedIsSound` | src/http_response.cpp:44-149 | what every reachable parser state satisfies: flags go up in order, CRLF-free reason, canonical headers, body empty or delimited |
| `ResponseRelay.HeadCanonicalisation` | src/http_response.cpp:192-203 | the head of any parsed response, printed in any header order, is read back with the same status and headers |
| `ResponseRelay.RelayTheorem` | src/http_response.cpp:166-203 | for every complete response of every run: parsing `commit()` gives the same response, complete, if and only if it has no Content-Length |
| `ResponseRelay.SoundRelay` | src/http_response.cpp:166-203 | and what is left over, or that it never completes |
| `ResponseRelay.HeadersAndBodyReadBack` | src/http_response.cpp:192-203 | with Content-Length, head and bare body are read back as the same response |
| `ResponseRelay.EndToEnd` | src/http_connection.cpp:95-100 | from the origin's message, cut quietly, through parser and printer to the client's parser: the meaning is kept if and only if the body is not counted |
| `ResponseRelay.CountedIsNotRelayed` | src/http_response.cpp:166-189 | concrete input: a response with `Content-Length: 1` that arrives complete is not read back from its print |
| `WireFormat.CountedResponseIsRead` | src/http_response.cpp:44-92 | the bytes of a response with `Content-Length`, literally, are read as that response |
| `WireFormat.ChunkedResponseIsRead` | src/http_response.cpp:44-125 | and those of one with `Transfer-Encoding: chunked` |
| `WireFormat.ResponseHead` | src/http_response.cpp:192-203 | the head printed, byte for byte: `HTTP/1.1`, code, reason, lines, empty line |
| `WireFormat.ResponseBody` | src/http_response.cpp:166-189 | the print is that head and the body, in chunks if the headers say so, otherwise as it is with one line break |
| `WireFormat.CountedPrintHoldsBody` | src/http_response.cpp:173-187 | the print of a counted response ends in CRLF, and without it is read back as the same response |
| `Conservation.RunAccount` | src/http_response.cpp:44-139 | in every run past the title, whatever the bytes: all bytes received are the start line that the first fragment was read for, the header lines that fold to the map, the blank line, and the body or the pieces taken fragment by fragment, then the buffer; a chunked body is the data of the pieces, or longer if some buffer doubled |
| `Conservation.AccountIsUniqueInRun` | src/http_response.cpp:44-139 | nothing that was received can be filed differently |
| `Conservation.BytesAreConserved` | src/http_response.cpp:44-139 | in every run past the title, an account of all bytes and of the body exists if and only if no fragment made a buffer that doubles |
| `Conservation.FirstValueWins` | src/http_response.cpp:146-149 | in every run, however cut and whatever follows the head, the first line of a name decides its value |
| `Requests.Resumes` | src/http_request.cpp:8-69 | once the request line is whole, on any bytes: two fragments or one, while the request is not complete in between |
| `Requests.FeedIsOneShot` | src/http_request.cpp:8-69 | with a whole request line in the first, feeding any fragments is feeding their concatenation, while no proper prefix is complete |
| `Requests.ContentLengthCompletion` | src/http_request.cpp:54-66 | as for responses |
| `Requests.IncompleteReturns` | src/http_request.cpp:23-67 | an incomplete parser always leaves its loop, and the body flag goes up only with completion |
| `Requests.EmptyFirstFragmentThrows` | src/http_request.cpp:25-34 | an empty first fragment throws |
| `RequestRelay.FeedIsSound` | src/http_request.cpp:19-84 | what every reachable request state satisfies |
| `RequestRelay.RelayTheorem` | src/http_request.cpp:92-110 | for every complete request of every run: parsing `commit()` gives the same request, complete, if and only if it has no Content-Length |
| `RequestRelay.RoundTrip` | src/http_request.cpp:100-110 | head and bare body of every request without blanks, colons or CRLF where they do not belong and with a body of the declared length, parsed or composed by the setters, in any header order, cut anywhere after the request line, are read back as the same request by the last fragment |
| `RequestRelay.ParsedIsPrintable` | src/http_request.cpp:19-84 | every request that a run of the parser completes is such a request |
| `WireFormat.RequestIsRead` | src/http_request.cpp:19-66 | the bytes of a request with `Content-Length`, literally, are read as that request |
| `WireFormat.RequestHead` | src/http_request.cpp:100-110 | the head printed, byte for byte |
| `WireFormat.RequestBody` | src/http_request.cpp:92-98 | the print is that head, the body and one line break |
| `WireFormat.RequestPrintHoldsBody` | src/http_request.cpp:95-96 | without its last two bytes, a CRLF, the print of a request with a body of the declared length is read back as the same request |
| `RequestConservation.RequestBytesAreConserved` | src/http_request.cpp:19-69 | in every run: bytes received are the request line that the first fragment was read for, the header lines that fold to the map, the blank line, the body, then the buffer, which a counted body leaves empty |
| `Rejections.TitleFails` | src/http_request.cpp:25-34 | reading the request line throws exactly when the fragment is empty or ends in its first or second blank |
| `Rejections.TitleIs` | src/http_request.cpp:25-34 | what any bytes are read as: method, URL and version up to the first and second blank and the line break, where a missing one leaves the same bytes for the next part |
| `Rejections.CutMethodMisleads` | src/http_request.cpp:25-34 | a request line cut inside the method makes what was seen method, URL and version at once |
| `Rejections.CutUrlMisleads` | src/http_request.cpp:25-34 | cut inside the URL, what was seen of it is the version as well |
| `Rejections.CutVersionMisleads` | src/http_request.cpp:25-34 | cut inside the version, what was seen is the version, and, less one byte, the beginning of a header line |
| `Rejections.HeadersOfRun` | src/http_request.cpp:35-53 | the headers of a request that any run completes are what the last line of each name says, and no others |
| `Rejections.ThrowsExactly` | src/http_request.cpp:19-69 | in every run, an incomplete request parser throws on a fragment exactly when the bytes so far have no request line in the first fragment, a field with an empty value, or an ended block whose last Content-Length is not a number that fits |
| `Rejections.EmptyFieldIsRejected` | src/http_request.cpp:51 | every request whose first field has an empty value is rejected |
| `RequestConservation.LastValueWins` | src/http_request.cpp:81-84 | in every run, however cut, the last line of a name decides its value |
| `HttpResponseObject.HttpResponse.AppendData` | src/http_response.cpp:33-37 | the object does what the function on states says, exception for exception; it must not be complete |
| `HttpResponseObject.HttpResponse.Parse` | src/http_response.cpp:44-139 | the phase loop terminates (phase flags, then buffer length) and refines the phases |
| `HttpResponseObject.HttpResponse.DecodeChunks` | src/http_response.cpp:102-125 | the chunk loop terminates (buffer length) and refines the decoder |
| `HttpResponseObject.HttpResponse.AddHeader` | src/http_response.cpp:146-149 | an existing name keeps its value |
| `HttpResponseObject.HttpResponse.Commit` | src/http_response.cpp:166-189 | the bytes printed, and the empty Transfer-Encoding that looking it up leaves in the map |
| `HttpResponseObject.HttpResponse.CommitHeaders` | src/http_response.cpp:192-203 | the head printed |
| `HttpRequestObject.HttpRequest.AppendData` | src/http_request.cpp:8-12 | the object does what the function on states says |
| `HttpRequestObject.HttpRequest.Parse` | src/http_request.cpp:19-69 | the phase loop terminates and refines the phases |
| `HttpRequestObject.HttpRequest.AddHeader` | src/http_request.cpp:81-84 | a repeated name takes the new value |
| `HttpRequestObject.HttpRequest.Commit` | src/http_request.cpp:92-98 | the bytes printed |
| `BridgeStream.InOrderDelivery` | src/http_connection.cpp:43-70 | any keep-alive sequence of well-formed responses, each quietly cut: one response handed on per message, in order, with that message's meaning; then a fresh parser |
| `BridgeStream.ReceiveStaysIncomplete` | src/http_connection.cpp:49-69 | the parser behind a bridge is never complete between fragments, so it never spins |
| `ClientStream.SwallowsAll` | src/http_response.cpp:86-92 | a parser whose counted body is too long already takes everything that comes for body and hands nothing on |
| `ClientStream.ClientReads` | src/http_connection.cpp:95-100 | of any list of responses printed one behind the other, one fragment each, a client's parser hands on exactly those before the first with a Content-Length, with their meaning, and is fresh again if and only if there is none |
| `Epoll.RemoveTwice` | src/epoll_wrapper.cpp:64-67 | the dispatcher's second removal changes nothing if and only if the descriptor was listed at most once |
| `Epoll.EpollWrapper.AddSocket` | src/epoll_wrapper.cpp:123-138 | keeps an existing handler, grows the list |
| `Epoll.EpollWrapper.RemoveSocket` | src/epoll_wrapper.cpp:140-165 | drops handler and first list entry of a listed descriptor, nothing otherwise |
| `Safety.StepInv` | src/epoll_wrapper.cpp:48-92 | every legal step keeps the invariant, or throws, and throws exactly when an accept or a request parser does; no other fault is possible |
| `Safety.RunSafety` | src/proxy.cpp:46-125 | in every run: no spinning parser, no dead connection touched, no connection made by operator[] |
| `Safety.TablesAgree` | src/proxy.cpp:46-125 | in every reachable state: handlers are exactly the clients, the bridges and, until a stop or a close of it, the listener, all distinct; bridges only for live clients; one list entry each; open descriptors are those and no others; every stored parser is incomplete |
| `Safety.ListensUntilStopped` | src/tcp.h:225-228 | the listener's handler is there exactly as long as no such event has come |
| `Dispatching.HangUpOfClient` | src/epoll_wrapper.cpp:59-68 | in every reachable state, EPOLLRDHUP on a client, whatever other flags are set, removes it, its request parser and its bridge from all tables, sends nothing and ends nothing |
| `Dispatching.HangUpOfBridge` | src/proxy.cpp:96-105 | on a bridge it removes bridge and client, and leaves request_map alone |
| `Dispatching.HangUpOfListener` | src/epoll_wrapper.cpp:59-68 | on the listener it removes that from the registry |
| `Dispatching.NoPlainInput` | src/epoll_wrapper.cpp:69-78 | without EPOLLRDHUP, anything but plain EPOLLIN changes nothing |
| `Dispatching.PlainInput` | src/epoll_wrapper.cpp:79-89 | EPOLLIN alone runs the data handler of this very client, bridge or listener on the bytes read |
| `Dispatching.AcceptTables` | src/tcp.h:128-192 | the tables after an accept, with a request parser that has seen nothing; a failed accept ends the program |
| `Dispatching.BridgeDataTables` | src/http_connection.cpp:43-70 | the tables and the output after a bridge's bytes |
| `Routing.Isolation` | src/http_server.cpp:18-56 | in every run: a client's parser depends only on its own bytes since accept or its last request, a bridge's only on its own since it was opened or reset, and the bridge matches the last Host, fd reuse notwithstanding |
| `Routing.StepTouchesOne` | src/tcp.h:169-181 | an event changes tables for, and sends to, one client only |
| `Routing.ClientInput` | src/proxy.cpp:46-111 | what a complete request does: bridge kept, replaced or opened for its Host, and the request sent over it; it is dropped exactly if a bridge is needed and the connect fails |
| `Delivery.RoutingSafety` | src/proxy.cpp:56-106 | every response sent was completed by the bridge its client owns, opened for the Host of that client's last request; every request goes over its own client's bridge for its own Host |
| `Delivery.RequestIsForwarded` | src/proxy.cpp:52-110 | in every run a complete request is sent once: over its client's bridge if that was opened for its Host, otherwise over the one opened now; only a failed connect drops it |
| `Delivery.RequestGoesToItsHost` | src/proxy.cpp:52-80 | in every run, by the bytes: with the value of the last `Host` line behind its request line, or nothing if there is none, a complete request goes over its client's bridge if that is to this host, otherwise over one opened now to it, which is then the client's |
| `Delivery.DeliveredExactly` | src/http_connection.cpp:43-70 | a bridge's input sends exactly the response its own bytes complete, to its own client |
| `Delivery.ResponseIsDropped` | src/http_connection.cpp:64-69 | in every run, a bridge's input is lost to an exception, with nothing sent and a fresh parser, exactly when its bytes since the last reset are rejected |
| `Delivery.ReplacedBridgeIsSilent` | src/proxy.cpp:60-68 | in every continuation of a run, no handler stands for a replaced bridge again, and events on its descriptor are passed over until that is handed out again |
| `Delivery.RunEndsExactly` | src/http_server.cpp:30-33 | the program ends exactly at a failed accept or at client bytes that are rejected, in terms of the bytes |
| `Delivery.EmptyFieldEndsRun` | src/http_request.cpp:50-51 | in every reachable state, a request line and a field with an empty value from a client end the program |
| `Delivery.RemovedIsNeverDispatched` | src/epoll_wrapper.cpp:56-90 | events on a removed descriptor that is not handed out again might as well not be in the batch |
| `Delivery.BridgeProjection` | src/proxy.cpp:79-106 | seen from one bridge, any run that does not close or replace it is the stream transducer on the bridge's own bytes, whatever its client and all others send |
| `Delivery.SystemInOrderDelivery` | src/http_connection.cpp:43-70 | the whole proxy, among arbitrary other traffic and more requests of the same client for the same Host, sends a client exactly its bridge's well-formed responses, in order |
| `Delivery.SystemEndToEnd` | src/proxy.cpp:81-95 | and of the prints that the client gets on its one connection it reads exactly those before the first whose body the origin counted, as the origin meant them; its parser is ready for more if and only if there is none |
| `ProxyObject.Proxy.OnAccept` | src/tcp.h:128-192 | accept: client, registration, fresh request parser |
| `ProxyObject.Proxy.OnClientData` | src/http_server.cpp:23-50 | the client's data handler is the transition prescribed; its parser is incomplete, as the parser object demands |
| `ProxyObject.Proxy.OnCompleteRequest` | src/proxy.cpp:46-111 | the request callback edits con_map and the registry as prescribed |
| `ProxyObject.Proxy.SendQuery` | src/http_connection.cpp:29-88 | the first query on a bridge registers it |
| `ProxyObject.Proxy.OnClientClose` | src/proxy.cpp:112-125 | the client's bridge, parser and registration go with it |
| `ProxyObject.Proxy.OnBridgeData` | src/http_connection.cpp:43-70 | the bridge's data handler, with its reset on completion and on exception |
| `ProxyObject.Proxy.OnBridgeClose` | src/proxy.cpp:96-105 | the bridge and its client go, request_map keeps the client's entry |
| `ProxyObject.Proxy.Disconnect` | src/tcp.h:234-240 | out of the registry, destroyed, closed |
| `ProxyObject.Proxy.ProcessEvents` | src/epoll_wrapper.cpp:48-92 | a batch is the run of its events, and keeps the invariant |

## Left out

- Sockets: address lookup, connect, accept, read and write are nondeterministic inputs of an event; partial writes, blocking flags, broken pipes and failing reads are not described.
- epoll_ctl and epoll_wait: a batch is any list of descriptors with any flags; the cap of 64 events is not modelled.
- Buffers of 2^31 bytes and more: the header phase stores a position in an `int`, which is taken not to overflow, and so is the block counter of the encoder.
- Header values and reasons with bytes above 127: `isspace` is only modelled for the "C" locale, where such bytes are not white space.
- Tags of registered descriptors, logging, client ids, signal plumbing and command-line arguments: nothing depends on them.  The stop signal is an event that removes the listener; runs may go on after it, though the program leaves its loop.
- Responses.CutIndependence: cuts inside the start line, and inside size lines of which the part before the cut is not kept, are excluded, because the parser has no partial case for them.
- Responses.CutTheorem: size lines are without leading zeros; for others CutSizeLine says exactly when one cut leaves the parser where the sender is, but not what becomes of a message that was misread.
- Responses.CutIndependence: chunk extensions, trailers, unknown transfer codings and two messages in one fragment are excluded, because the parser does not handle them.
- Delivery.SystemInOrderDelivery: the client's bridge is not closed or replaced while its responses arrive; what a replacement does is RequestIsForwarded and ReplacedBridgeIsSilent.
- Delivery.SystemEndToEnd: each print reaches the client as one fragment; how TCP may cut or join prints is not modelled.
- StateMachine.Step: outputs are messages, not bytes; the bytes are those of the printers, which SystemEndToEnd reads back.
- ResponseRelay.RelayTheorem: meaning is what this parser reads; whether other HTTP implementations accept `0x` sizes or the additional CRLF is not modelled.
- The heap: the response parser of a bridge is a value owned by the bridge, so its leak is not visible; shared handler copies are values too.
- The table of status constants, plain getters and setters, and the unused example programs: they hold no behaviour that another part depends on.
