# HTTPageboy: a verified model of its request and response engine

HTTPageboy is a small HTTP/1.1 server. This project models what happens between
the octets of a TCP connection and the octets written back, and the worker pool
connections run on, and proves what that engine promises over every input, every
run and every interleaving.

| file | part of the program |
|---|---|
| `ByteText.dfy`, `Http.dfy`, `Wrappers.dfy` | octet strings (searching, splitting, UTF-8, trimming, numbers), and the values passed around |
| `Characters.dfy`, `Numerals.dfy` | what octet strings stand for, without scanning: UTF-8, white space, words, letters, numbers |
| `Fields.dfy`, `HeadVerdicts.dfy` | how a head announces its body: `extract_body_headers`, and which lines call for which verdict |
| `Framing.dfy`, `FramingVerdicts.dfy`, `TightBound.dfy` | the decision taken on a growing buffer: `take_framed_request`; what it refuses and awaits; a buffer that reaches its bound |
| `SizeLines.dfy`, `ChunkGrammar.dfy`, `ChunkEncoder.dfy` | section 7.1 of RFC 9112 as a grammar, from its digits up, and a sender's side of it |
| `Receiver.dfy`, `Endings.dfy` | the read loop, against an adversarial network and a logical clock: `parse_stream_sync`; how it ends without a whole request |
| `Patterns.dfy` | path patterns: `extract_params`, and filling a pattern's slots |
| `Routing.dfy`, `RouteOrder.dfy` | parsing a framed request and dispatching it: `parse_raw_only`, `route_sync`, `upgrade_handler`, and what the order of a hash map can change |
| `ResponseHead.dfy`, `ResponseVerdicts.dfy`, `PrintedHead.dfy`, `ResponseStream.dfy`, `CloseNotice.dfy` | printing a response head, what it carries, and what a client reads back |
| `RouteVerdicts.dfy` | who answers a request, and what is refused before anyone can |
| `Connection.dfy`, `Segmentation.dfy` | the whole connection, and its independence of how TCP cuts the input |
| `Pipelining.dfy`, `Conversation.dfy` | a client that prints requests with a Content-Length and sends them back to back, and what it reads back |
| `Session.dfy` | the same connection as imperative code over a buffer drained in place: `handle_stream` |
| `ThreadPool.dfy`, `PoolShutdown.dfy`, `WorkerThreads.dfy` | the worker pool as interleaved steps, its shutdown, and the pool as mutable state |

The functions of a module say what a step does on unbounded numbers. The classes
in `Session.dfy` and `WorkerThreads.dfy`, and the loops in `Fields.dfy`,
`ResponseHead.dfy`, `Patterns.dfy` and `Routing.dfy`, run as the program does, with saturating
and checked arithmetic, and each is proved to agree with the functions. The
theorems are about the functions. `hide` statements only keep definitions out of
proofs that do not need them.

## How the outside world is modelled

- An octet is a character. Octets are the characters below 256; no result needs that bound.
- Text is UTF-8 as `from_utf8` accepts it, white space is Unicode's, letter case is ASCII's. `Characters.dfy` proves the scanning functions equal to definitions over Unicode characters and written-out alphabets.
- `usizeMax` is the largest `usize` of the target, at most 2^64 - 1. Sizes and lengths may start with `+`, as `parse` and `from_str_radix` allow.
- A network is a function from the number of a read to how long the read would block and what it would deliver: octets, the end of the stream, a timeout or a failure. A read that would outlast the timeout set on the socket times out. Time passes only in reads.
- Handlers and file serving are arbitrary total functions. A route table is a map and an arbitrary order in which iterating over it yields its keys.
- An upgrade ends the loop and hands the connection over.
- Whether a job panics is a property of the job, and jobs end.

## Where the code promises less than one might expect

- A response header named `Transfer-Encoding`, or whose name has a colon after the text `Content-Length`, makes the printed head announce the wrong body. `PrintedHead.ParserUndoesPrinter` shows that these names, and only these, do so; `PrintedHead.CodedHeadMisleads` gives one.
- A response header whose name spells out a whole Connection field announces an end that does not come. `Connection.CloseIsAnnounced` shows that nothing else makes announced and actual ends differ; `Conversation.ColonNameMisleads` gives a route handler and the requests it misleads.
- When several patterns of a method match a path, the order in which a hash map is iterated can decide what a request gets. `RouteOrder.HandlingIgnoresOrder` says exactly when it does not: when all of them give the request the same parameters and, unless a route is exact, lead to the same entry. `RouteOrder.AmbiguousPatternsDepend` gives routes and requests for which it decides, `Conversation.AmbiguousExample` one of them.
- A handler that takes the connection over reads on from the socket, and octets read together with its request are lost. `Segmentation.UpgradeReadsRemainder` shows that it gets all that remains exactly when the buffer is empty; `Conversation.UpgradeLosesOctets` gives two ways to cut one stream that differ in what it gets.
- A panicking job kills its worker. With as many panics as workers, jobs behind the last panic are dropped. `PoolShutdown.StoppedIsDrained` says exactly which jobs are served; `PoolShutdown.PanicLosesJob` gives a run that loses one.

## Model

| member | source | states |
|---|---|---|
| `Characters.Utf8Exactly` | src/core/request.rs:137 | text is accepted exactly when it is a sequence of encoded Unicode characters |
| `Characters.TrimText` | src/core/request.rs:84-92 | trimming takes all white-space characters off both ends and nothing else |
| `Characters.WordsText` | src/core/request.rs:758 | splitting at white space finds exactly the words between white-space characters |
| `Characters.SameTextExactly` | src/core/request.rs:80-87 | names agree exactly when they are the same octets up to the case of the 26 letters |
| `Numerals.NumberExactly` | src/core/request.rs:84 | a number is read exactly from an optional plus and digits of either letter case, worth that number |
| `ByteText.SplitExactly` | src/core/request.rs:88 | splitting at an octet gives exactly the pieces that lie between its occurrences |
| `Fields.ExtractBodyHeaders` | src/core/request.rs:64-112 | the line-by-line loop with early exits returns the framing, or the error, that the set of header lines calls for when read without regard to order |
| `Fields.ReadField` | src/core/request.rs:76-95 | one line is rejected at once exactly when it is malformed or a second Content-Length, and is otherwise recorded with what came before |
| `Fields.PushCodings` | src/core/request.rs:87-95 | the codings of one Transfer-Encoding value, trimmed and in lower case, or a rejection exactly when one is empty |
| `Fields.EarlyReject` | src/core/request.rs:76-83 | a malformed line or a second length makes the whole head a 400, whatever lines follow |
| `Fields.FramingIgnoresFieldOrder` | src/core/request.rs:72-111 | any reordering of the non-empty header lines of a head gives the same framing or the same error code |
| `HeadVerdicts.VerdictOnLines` | src/core/request.rs:64-112 | each framing and each error if and only if the lines call for it: 400 for a line without a colon, a length that is no number, an empty coding, two lengths, or a length beside a coding; a stated length; chunks for that one coding; 501 for other codings; none without either |
| `HeadVerdicts.HeaderLinesStop` | src/core/request.rs:72-75 | the lines read are those after the first, up to an empty one |
| `Framing.FrameStable` | src/core/request.rs:118-258 | a framed request or a reported error is the same on every longer buffer, and the octets that follow are left over untouched |
| `Framing.ChunksStable` | src/core/request.rs:177-254 | the same for the chunk loop from any state, including limits exceeded before and after a delimiter arrives |
| `Framing.FramedHeadIsKept` | src/core/request.rs:126-131 | the raw request starts with the head that was framed, and its first blank line is the one framing found |
| `Framing.NotYetIsBounded` | src/core/request.rs:118-258 | while the answer is "not yet" the buffer holds at most 3H + 2*floor(H/3) + B octets |
| `Framing.ChunksBounded` | src/core/request.rs:173-254 | the invariant of cursor, size-line octets, decoded octets and chunk count that gives this bound for chunked bodies |
| `FramingVerdicts.DecoderRefusesFaults` | src/core/request.rs:177-254 | the decoder reports an error if and only if chunks within the limits are followed by a fault of that kind: 431 for lines too long, 413 for too much data, 400 for what is not of the grammar |
| `FramingVerdicts.ChunkedVerdicts` | src/core/request.rs:172-255 | the same for a whole message |
| `FramingVerdicts.HeadIsAwaited` | src/core/request.rs:125-130 | without a blank line the head is awaited until it is too long |
| `FramingVerdicts.HeadIsRefused` | src/core/request.rs:132-138 | 431 for a head over the limit, 400 for one that is not text, and whatever error its lines call for |
| `FramingVerdicts.LongHeadIsRefused` | src/core/request.rs:125-133 | a head over the limit is refused with its first octet beyond, whether or not its end has come |
| `FramingVerdicts.LengthVerdicts` | src/core/request.rs:162-171 | a body of announced length is refused when too long, else awaited, else taken |
| `FramingVerdicts.OpenVerdicts` | src/core/request.rs:141-161 | a body nothing announces: all that comes until the end, within the limit, for five methods; none for any other |
| `FramingVerdicts.PrefixesAreAwaited` | src/core/request.rs:118-258 | whatever is framed whole is awaited while an octet of it is missing |
| `TightBound.BoundIsReached` | src/core/request.rs:118-258 | the bound is exact: for header limits with room for a chunked head and body limits that one-digit chunks can exhaust, a buffer of just that many octets is "not yet" |
| `ChunkGrammar.DecodesGrammar` | src/core/request.rs:177-254 | every chunked body of the grammar within the limits is decoded to its data, whatever follows it |
| `ChunkGrammar.DecodedIsGrammar` | src/core/request.rs:177-254 | whatever the decoder accepts is a chunked body of the grammar within the limits |
| `ChunkGrammar.DecoderRefinesGrammar` | src/core/request.rs:172-255 | the decoder returns a payload and an end if and only if the octets start with a body of the grammar that has them |
| `ChunkGrammar.ParseIsUnique` | src/core/request.rs:172-255 | two bodies of the grammar that spell the same octets are the same body with the same rest |
| `SizeLines.AnnouncesIsRead` | src/core/request.rs:189-198 | a size is read off a line if and only if the line is white space, hexadecimal digits of either letter case worth it, white space, and extensions |
| `SizeLines.TrailerIsRead` | src/core/request.rs:202-232 | a trailer section is accepted if and only if it is lines that are all fields, within the limit |
| `ChunkEncoder.FramingRefinesGrammar` | src/core/request.rs:118-258 | a message with a chunked head is framed if and only if a body of the grammar follows, as its head and its data |
| `ChunkEncoder.ChunkedRoundTrip` | src/core/request.rs:177-254 | any body sent in any non-empty pieces, sizes spelled in either letter case and with leading zeros, with any extensions and trailers within the limits, is framed as head and body, leaving exactly the octets after it |
| `ChunkEncoder.ChunkedBodyIsParsed` | src/core/request.rs:732-754 | the request parsed from such a message has exactly the sent data as its body |
| `Receiver.TurnUsesRoom` | src/core/request.rs:616-676 | a turn of the read loop that goes on has read at least one octet into a buffer below the bound |
| `Receiver.TurnKeepsSound` | src/core/request.rs:610-699 | in every state the loop reaches the clock runs exactly while octets are held, no octet is lost, the buffer stays under the bound plus one read, quiet ends hold nothing, errors leave the buffer alone, and time is within the request timeout |
| `Receiver.LoopKeepsSound` | src/core/request.rs:616-699 | the same for the result of a whole call |
| `Receiver.ReadsAreBounded` | src/core/request.rs:616-699 | one call makes at most bound + 1 reads that deliver octets and at most one more, whatever the clock does |
| `Receiver.ReceiveReturnsInTime` | src/core/request.rs:610-693 | no interleaving of slow reads makes a call outlast the request timeout once it holds an octet |
| `Endings.IncompleteEnds` | src/core/request.rs:630-699 | a request that never becomes whole: after silence what arrived is framed once more, or a 408; after a close, framed once more, or a 400; a failed read is a 400, and a request out of time a 408 at once; octets not framed are kept |
| `Endings.QuietEnds` | src/core/request.rs:641-684 | without an octet, silence or no time to wait is idle, a close is closed, a failed read a 400 |
| `Endings.OpenBodyIsServed` | src/core/request.rs:680-689 | a client that sends a body nothing announces and keeps its connection open is served once it has been silent |
| `Patterns.SlotExactly` | src/core/request.rs:550 | a part is a slot exactly when it stands in braces |
| `Patterns.BracesOffText` | src/core/request.rs:551 | its name is what all braces at both ends leave |
| `Patterns.BracesParts` | src/core/request.rs:551 | every slot's text is its name between braces, a name that neither starts nor ends with one |
| `Patterns.ExtractParams` | src/core/request.rs:542-558 | the loop over path segments collects the slots of a matching pattern, and nothing otherwise |
| `Patterns.SlotsRoundTrip` | src/core/request.rs:542-558 | filling distinctly named slots with slash-free values gives a path from which exactly those values are extracted |
| `Patterns.FillingIsExtracted` | src/core/request.rs:542-558 | the same for the slots of any pattern: each name is extracted with the value of its last slot |
| `Patterns.ExtractedIsFilling` | src/core/request.rs:542-558 | conversely, a path from which anything is extracted is the pattern with exactly these slash-free values in its slots |
| `Patterns.MatchesAreFillings` | src/core/request.rs:542-558 | a pattern matches a path if and only if the path is the pattern with its slots, one at least, filled |
| `Routing.FindMatch` | src/core/request.rs:816-824 | the loop over keys stops at the first key, in iteration order, whose pattern matches |
| `Routing.CollectParams` | src/core/request.rs:814-833 | each name has the value of the last query pair that sets it, or else that of the path parameters of the first match, or else none |
| `Routing.QueryOverrides` | src/core/request.rs:826-833 | the loop over query pairs, from any parameters: later pairs win over earlier ones, and all over what was there |
| `Routing.ParseRawOnly` | src/core/request.rs:732-842 | the early returns and loops of the parser give the request, or the status, of the model |
| `Routing.FindRoute` | src/core/request.rs:845-869 | an exact route, else the first matching pattern, with its path parameters under the request's own |
| `Routing.FramedBodyIsParsed` | src/core/request.rs:732-754 | a framed request is split again at the same head boundary: its body is what framing put there, and only its request line can be refused |
| `RouteVerdicts.RequestLineVerdicts` | src/core/request.rs:758-797 | 400 unless the line is three words between any white space, else 405 for an unknown method, else 505 for another version, else 414 for a target over 2000 octets, else method and target |
| `RouteVerdicts.UnparsedIsAnswered` | src/core/request.rs:703-715 | a request that cannot be parsed is answered by that status alone, and the connection may go on |
| `RouteVerdicts.UnreadIsAnswered` | src/runtime/sync/server.rs:164-174 | octets that are no request are answered by their status alone, which ends the connection |
| `RouteVerdicts.QueryIsRead` | src/core/request.rs:826-833 | a printed query sets each key to its last value, over what the path gave |
| `RouteVerdicts.UnroutedIsAnswered` | src/core/request.rs:865-869 | without a route, exact or matching, a GET gets the files' response, an OPTIONS under a policy an empty 204, anything else the 404 page |
| `RouteVerdicts.ExactRouteAnswers` | src/core/request.rs:845-848 | a route for the very path answers, with the parameters of the target |
| `RouteVerdicts.PatternAnswers` | src/core/request.rs:849-864 | else the first matching pattern, whose handler sees the slots' values and those of the query over them |
| `RouteVerdicts.SwitchingHandsOver` | src/runtime/sync/server.rs:190-205 | an exact route that switches protocols hands the connection to its hook, when its head prints, with a head that does not close |
| `RouteVerdicts.AnswerCarries` | src/runtime/sync/server.rs:177-188 | every answer goes out under the request's method and origin and the server's policy |
| `RouteVerdicts.OriginIsFirst` | src/core/request.rs:564-570 | the origin is the value of the first header of that name |
| `RouteOrder.MatchIgnoresOrder` | src/core/request.rs:814-824 | whatever is made of the key that a search over the table finds is the same for every iteration order if and only if it is the same for all keys that match |
| `RouteOrder.PathParamsIgnoreOrder` | src/core/request.rs:814-824 | path parameters are the same for every order if and only if all matching patterns extract the same ones |
| `RouteOrder.DispatchIgnoresOrder` | src/core/request.rs:845-869 | handler and request as it sees it are the same for every order if and only if a route is exact or all matching patterns lead to one entry and one set of parameters under the request's own |
| `RouteOrder.UpgradeIgnoresOrder` | src/core/request.rs:581-596 | the upgrade hook is the same for every order if and only if a route is exact or the entries of all matching patterns have the same hook |
| `RouteOrder.HandlingIgnoresOrder` | src/core/request.rs:814-869 | parsing and dispatching together: parameters, handler, what it sees and hook are the same for every order if and only if all matching patterns give the same parameters and, unless a route is exact, one entry |
| `RouteOrder.OneMatchIgnoresOrder` | src/core/request.rs:581-596 | so at most one matching pattern makes the order show nowhere |
| `RouteOrder.AmbiguousPatternsDepend` | src/core/request.rs:814-869 | two one-slot patterns of different names, and two orders of their table in which every request for a path of one segment, and its handler, get different parameters |
| `ResponseHead.ResponseHead` | src/runtime/shared.rs:52-90 | the two appending loops with early exit build the head line by line, or refuse it exactly when a header could break its line |
| `ResponseHead.PushKept` | src/runtime/shared.rs:61-72 | the handler's headers, checked and without those the server replaces |
| `ResponseVerdicts.HeadIsRefused` | src/runtime/shared.rs:37-39 | a head is refused if and only if a header of the handler or the policy holds a line-break octet |
| `ResponseVerdicts.StatusLines` | src/core/status_code.rs:70-128 | the status line of each status the server sends by itself |
| `ResponseVerdicts.KeptInOrder` | src/runtime/shared.rs:61-72 | a handler's headers are kept one by one in order, but for Content-Length and, when closing, Connection, in any letter case |
| `ResponseVerdicts.OneLength` | src/runtime/shared.rs:41-50 | a head has one Content-Length, of the body that follows, or none when none may follow |
| `ResponseVerdicts.OneConnection` | src/runtime/shared.rs:77-79 | a head that closes has one Connection field, and it says close |
| `ResponseVerdicts.HeadersArrive` | src/runtime/shared.rs:59-90 | a client reads off the head exactly the headers sent, in order |
| `ResponseVerdicts.PolicyAnswers` | src/core/cors.rs:48-73 | a policy allows any origin, or the request's own when it is listed in any letter case, and states its other fields regardless |
| `ResponseVerdicts.CloseIsAsked` | src/core/request.rs:572-579 | the end is asked for if and only if some comma-separated token of a Connection field is close, in any letter case |
| `PrintedHead.HeadEndsAtBlank` | src/runtime/shared.rs:59-89 | the only blank line of a printed head, whatever follows it, is its end |
| `PrintedHead.ParserUndoesPrinter` | src/runtime/shared.rs:52-90 | the repository's header parser finds in a printed head exactly the body that follows, if and only if no header name smuggles a framing field in |
| `PrintedHead.CodedHeadMisleads` | src/runtime/shared.rs:61-72 | a response with a Transfer-Encoding header, accepted by the printer and misread |
| `ResponseStream.FallbackIsAHead` | src/runtime/shared.rs:34-35 | the constant 500 head is what the printer makes of an empty 500 response that closes |
| `ResponseStream.BodyIsSent` | src/runtime/sync/server.rs:249-251 | the body sent is the whole body of the response, unless it answers HEAD, its code is 1xx, 204 or 304, or its head was refused |
| `ResponseStream.ResponseReadsBack` | src/runtime/sync/server.rs:233-257 | a client reading at the front of a stream recovers the head and body of one response and leaves the rest |
| `ResponseStream.StreamReadsBack` | src/runtime/sync/server.rs:233-257 | a run of responses on one connection has one reading: exactly the heads and bodies sent, with the codes and bodies meant |
| `CloseNotice.HeadAnnounces` | src/runtime/shared.rs:61-79 | a printed head carries a Connection field with token close if and only if the server closes or a handler's header promises it |
| `CloseNotice.SentAnnounces` | src/runtime/sync/server.rs:233-257 | the same for what is actually sent, the 500 fallback included |
| `Connection.ServeKeepsProtocol` | src/runtime/sync/server.rs:153-229 | whatever the read loop returns, request or error, is answered exactly once and in order until an answer ends the connection or the client is quiet or gone; at most as many responses as the request limit; only the last ends the connection, answers no request or hands it over, and nothing is read after it |
| `Connection.EndsUnlessLasts` | src/runtime/sync/server.rs:177-228 | the loop ends with an answer if and only if request or response asks to close, the head is refused, the connection is handed over, or the limit is reached |
| `Connection.AnswerIgnoresOrder` | src/runtime/sync/server.rs:177-228 | where the order of the routes is free for a request, its whole answer does not depend on it |
| `Connection.ServeIgnoresOrder` | src/runtime/sync/server.rs:153-229 | where it is free for every request read on a connection, nothing on that connection depends on it |
| `Connection.ServeKeepsOctets` | src/runtime/sync/server.rs:150-162 | over a whole connection the framed prefixes and the buffer are all octets received, and the buffer stays under its bound |
| `Connection.CloseIsAnnounced` | src/runtime/sync/server.rs:181-228 | announced and actual end agree for an answer that is not handed over, if and only if request, response or limit make it the last, or no header name smuggles a Connection field in |
| `Connection.RefusalIsAnnounced` | src/runtime/sync/server.rs:164-174 | the answer to a request that could not be read announces the end and ends the loop |
| `Connection.ServeAnnouncesEnd` | src/runtime/sync/server.rs:153-229 | the agreement for every response of every connection |
| `Connection.ServeIsHonest` | src/runtime/sync/server.rs:183-188 | when no handler sets a smuggling name, no response of any connection misleads the client |
| `Connection.ConnectionReadsBack` | src/runtime/sync/server.rs:153-229 | the client recovers, from everything written on a connection, exactly the heads and bodies sent, with the codes and bodies meant |
| `Segmentation.LoopReadsStream` | src/core/request.rs:616-699 | one call returns what stands at the front of the byte stream, and leaves its rest to buffer and network |
| `Segmentation.ServeReadsStream` | src/runtime/sync/server.rs:153-229 | the responses of a connection, and what then remains of its input, are functions of that input alone |
| `Segmentation.SegmentationIndependence` | src/runtime/sync/server.rs:153-229 | any two ways of cutting a finished stream into reads, none of which times out, give the same requests, responses, end and octets written, and leave the same octets |
| `Segmentation.UpgradeReadsRemainder` | src/runtime/sync/server.rs:190-205 | a handler that takes the connection over gets all that remains of the stream if and only if the buffer is empty |
| `Segmentation.RequestsAnsweredInOrder` | src/runtime/sync/server.rs:153-229 | of the requests in a stream none is skipped, repeated or reordered, and none goes unanswered unless the answer to an earlier one ended the connection |
| `Segmentation.ServeAnswersStream` | src/runtime/sync/server.rs:153-229 | the same of the server on any network that delivers the stream |
| `Segmentation.PunctualServe` | src/core/request.rs:630-651 | no read of a connection of any length times out if and only if each request it reads arrives in time: its first octets within the idle or keep-alive timeout, its other reads within the idle timeout each and the request timeout together |
| `Pipelining.RequestIsFramed` | src/core/request.rs:118-171 | a printed request is framed whole and exactly, whatever follows it |
| `Pipelining.RequestIsParsed` | src/core/request.rs:732-842 | the parser undoes the client's printer: method, target, headers, body and parameters come back |
| `Pipelining.PipelineIsFramed` | src/core/request.rs:616-628 | requests sent back to back are found in the stream one by one, as they were sent |
| `Conversation.PipelineIsAnswered` | src/runtime/sync/server.rs:153-229 | requests sent back to back, of which only the last may end the connection, get one answer each, in order, and no other response follows |
| `Conversation.ClientIsAnswered` | src/runtime/sync/server.rs:153-257 | on any network that delivers them, the client reads back exactly one head and body per request it sent, in order, with the codes and bodies meant |
| `Conversation.SpacedArePunctual` | src/core/request.rs:630-651 | requests that each arrive in one read, at most the keep-alive timeout apart, are in time however many there are |
| `Conversation.SpacedIsPrompt` | src/core/request.rs:616-699 | so no read of theirs times out, which is what the client's round trip asks for |
| `Conversation.SteadyLasts` | src/runtime/sync/server.rs:181-221 | where no handler closes, switches protocols or breaks a line, no request ends the connection without asking for it |
| `Conversation.SteadyClientIsWelcome` | src/runtime/sync/server.rs:153-229 | so a client that never asks to close is answered in full, as far as the request limit allows |
| `Conversation.ColonNameMisleads` | src/runtime/shared.rs:61-72 | a route handler that sets one header, and requests whose answer announces an end while the connection goes on |
| `Conversation.PlainGetIsMisled` | src/runtime/shared.rs:61-72 | one such request: GET / |
| `Conversation.UpgradeLosesOctets` | src/runtime/sync/server.rs:190-205 | the same octets after an upgrade request are lost when they arrive with it, and reach the new handler when they arrive apart |
| `Conversation.AmbiguousExample` | src/core/request.rs:814-869 | GET /x under the routes /{a} and /{b}: two orders of the table, two sets of parameters |
| `Session.Stream.TakeFramedRequest` | src/core/request.rs:118-258 | drains the buffer in place by exactly the framed prefix, or leaves it alone |
| `Session.Stream.ScanChunks` | src/core/request.rs:173-254 | the loop over cursor, decoded octets and size-line octets decodes the chunks |
| `Session.Stream.ChunkAt` | src/core/request.rs:178-199 | one turn of it in saturating arithmetic reads the chunk that unbounded arithmetic reads |
| `Session.Stream.SizedAt` | src/core/request.rs:201-252 | the rest of that turn, with saturating and checked additions |
| `Session.Stream.RunTurn` | src/core/request.rs:616-699 | one turn of the read loop on the mutable connection |
| `Session.Stream.ReadRequest` | src/core/request.rs:599-700 | the read loop ends without relying on the clock, with the result and state of the model |
| `Session.Stream.ParseRawSync` | src/core/request.rs:703-715 | parses a framed request and lets a route answer it, or answers the status of the parser as the default request |
| `Session.Stream.SendResponse` | src/runtime/sync/server.rs:233-257 | writes the head and content, or the fallback, and shuts the socket down when it must |
| `Session.Stream.Respond` | src/runtime/sync/server.rs:177-228 | answers one request, hands over an accepted upgrade, and says whether the loop ends |
| `Session.Stream.HandleStream` | src/runtime/sync/server.rs:148-229 | the connection loop writes exactly the responses of the model, in order, and shuts down or hands over exactly when its last response says so |
| `ThreadPool.StepKeeps` | src/runtime/sync/threadpool.rs:19-107 | every step of any thread keeps jobs in submission order, each dequeued job accounted for once, Terminates behind jobs and equal in number to those sent and not yet obeyed, and one worker at the lock |
| `ThreadPool.ExecutionKeeps` | src/runtime/sync/threadpool.rs:19-107 | so does every interleaving |
| `PoolShutdown.StoppedIsDrained` | src/runtime/sync/threadpool.rs:89-101 | when `stop` has returned, the jobs dequeued are exactly those the workers could serve, in order and once, and those that do not panic have finished; with fewer panics than workers these are all jobs |
| `PoolShutdown.EveryStopDrains` | src/runtime/sync/threadpool.rs:62-101 | the same for every execution of a new pool |
| `PoolShutdown.PanicLosesJob` | src/runtime/sync/threadpool.rs:31-35 | an execution of one worker in which a job behind a panic is never run |
| `PoolShutdown.WorkRunsOut` | src/runtime/sync/threadpool.rs:22-41 | whatever a worker does decreases one measure, in every phase of the pool |
| `PoolShutdown.RestingIsDone` | src/runtime/sync/threadpool.rs:22-41 | when no worker can move and one is left, every accepted job has been taken and has ended |
| `PoolShutdown.EnoughTerminates` | src/runtime/sync/threadpool.rs:89-92 | once all are sent, waiting Terminates are at least the live workers, panicked ones included |
| `PoolShutdown.StepsRunOut` | src/runtime/sync/threadpool.rs:89-107 | while `stop` runs, every step of any thread decreases one measure |
| `PoolShutdown.StopIsNeverStuck` | src/runtime/sync/threadpool.rs:89-107 | while `stop` runs, some thread can take a step |
| `PoolShutdown.StopReturns` | src/runtime/sync/threadpool.rs:89-107 | no execution stays inside `stop`, the one of `Drop` included, for more steps than the measure, and none gets stuck in it |
| `WorkerThreads.WorkerPool.Run` | src/runtime/sync/threadpool.rs:76-87 | submitting appends the job to the channel, or drops it silently when no worker is left |
| `WorkerThreads.WorkerPool.Turn` | src/runtime/sync/threadpool.rs:22-41 | one atomic action of a worker's loop is one step of the protocol |
| `WorkerThreads.WorkerPool.Stop` | src/runtime/sync/threadpool.rs:89-101 | sends and joins terminate under every schedule, leaving every worker dead and the queue drained as far as workers could serve it |

## Left out

- Sockets, timers and the asynchronous runtimes: replaced by a network function and a logical clock. The Tokio, async-std and smol servers repeat the two loops modelled here.
- Accept loops, server construction, `run_until_shutdown` and the setters, among them the one that raises a request limit of 0 to 1: a limit of 0 is modelled and allows one response, as 1 does.
- File serving, content types and path canonicalisation: an arbitrary function of the request.
- Handler and upgrade bodies, adapters and route macros: arbitrary functions, and a final step.
- Parsing of the cross-origin configuration text; the header lines a policy prints are modelled.
- Statuses only handlers send are a code and a one-line reason, without the table of texts.
- Write errors, which the program ignores, and the buffer of the kernel.
- `Segmentation.SegmentationIndependence`: reads that time out are excluded, because a timeout completes a request whose body no header announces, and a keep-alive timeout of 0 ends a connection unless its next request is already buffered.
- `Session.Stream.ReadRequest`: the header limit is below the largest `usize`; at that limit saturation could only be noticed on a buffer no machine can hold.
- `Session.Stream.RunTurn`: the same bound on the header limit.
- `Session.Stream.HandleStream`: the same bound on the header limit.
- `Connection.AnswerIgnoresOrder`: one direction only, because handlers are arbitrary and two different ones may give the same response.
- `Connection.ServeIgnoresOrder`: one direction only, for the same reason.
- Locks and `Arc` counts beyond their effect: the pool's mutex excludes `run` during `stop`, and a channel whose last receiver is gone drops its messages.
- `src/bin/openapi_from_code.rs`, test support and scripts.
