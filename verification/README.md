# Verified model of the HTTP gateway core

This project models, in Dafny 4.11, the parts of the C++ reverse proxy in which most of its state and
most of its promises live, and proves what those parts keep over every input, every run and every
interleaving of workers:

- **Requests in.** `HttpParser` as a class (`HttpParserClass`, `ParserMachine`, `Resumption`) that is resumed in the middle of a message, against a stateless
  parser of whole buffers (`RequestSyntax`), a grammar of messages (`Grammar`, `Fields`, `LineForms`) and the drain loop of
  a connection (`Chunking`, `Serving`, `ServedCuts`).
- **Requests out and responses.** The request sent to a backend, the response reader and the response writer,
  connected by round trips (`BackendRequest`, `RequestRoundTrip`, `Response`, `ResponseReader`,
  `ResponseText`, `ResponseRoundTrip`, `ProxiedResponse`) and the output queue of a client connection
  (`OutputStream`), joined with the reading side in `Connections`.
- **Forwarding.** Circuit breakers, connection pool and retry policy on their own (`Breakers`, `BreakerHistory`,
  `Pool`, `Retry`) and together, as a state machine in which any number of workers run `forwardWithResilience` at
  once and interleave at every lock and shared counter (`Forwarding`, `Ownership`, `Interleavings`,
  `BreakerRuns`, `PoolRuns`).
- **The rest of the pipeline.** LRU cache with expiry (`LruSpec`, `LruCacheClass`), token bucket
  (`RateLimiter`), router, load balancer, cache use (`CacheHits`), latency histogram.

A component whose methods update fields is a class; each of its methods is proved to compute a function
of the old value, and the theorems are about runs of those functions. Strings are sequences of characters,
clock readings are integers in ticks, doubles are reals. Random draws, clock readings, the sizes of `recv`
and `send`, dial results, backend answers, picks of the load balancer and the iteration order of hash maps
are arbitrary inputs, so a theorem holds for all of them.

Some promises hold under a condition only. Each is proved as an equivalence, with an input at which it fails:

- How a request stream is cut into reads does not show in what a connection serves exactly when all finished lines are
  short, at most 8191 bytes for a request line and 32767 for a header line, in every message up to the closing
  one, or up to a refused one, whose own lines do not matter
  (`CutsDoNotShowIff`, `LongLineShows`). The parser checks a line's length only while its end is missing; for the
  same reason these two refusals are not permanent (`LengthLimitIsNotPermanent`), while all others are
  (`RejectionIsPermanent`). For the parser alone, which does not close, `ChunkingInvisibleIff` is the condition.
- Nothing is served after a closing request exactly when no round finds one complete while the close waits for the
  socket (`ServesToCloseIff`, `SlowSocketServesOn`).
- Bytes that arrive together with the end of the stream, or with an error, are not looked at
  (`LostAtEnd`, `EndOfStreamLosesRequest`).
- A closed connection has sent every queued byte exactly when no send failed over unsent bytes and it was not closed
  without a flush while some were pending (`OutputIsConserved`, `GoneLosesReply`).
- A response is read back under every cut exactly when its header section fits the reader's limit, which
  also depends on the whole length because the limit is applied to body bytes that happen to arrive with the
  header section, and its reason phrase holds no line end (`ReadBackIff`, `ProxiedResponseRoundTrip`,
  `NotEveryResponseFits`). The latter can fail only for a status line without the second space (`MissingReason`).
- A response carries exactly one request id exactly when the backend sent none (`OneRequestId`,
  `TwoRequestIds`).
- A forwarded request is readable for another instance of the gateway exactly when it has at most 100 fields;
  forwarding adds up to five and removes some (`BackendRequestRoundTrip`, `TooManyToForward`).
- Late failure reports re-trip a breaker at most once for every `threshold` of them exactly when there is a
  trial request or the threshold is 1 (`ReTripsBounded`, `OneFailureReTrips`).
- Rejected calls leave no trace in a token bucket exactly when the clock readings are processed in order;
  the code reads the clock before taking its lock (`ErasableIffOrdered`, `ErasureNeedsOrder`).

Where code and documentation differ, the model follows the code:

- The breaker's header comment speaks of failures in a rolling window; the code counts consecutive
  failures (include/resilience/CircuitBreaker.hpp:13, 59-70). It also says that a half-open breaker closes if the trial
  requests succeed; in the code the first report of any request decides, even one admitted before the trip
  (lines 17-18, 50-64).
- A half-open breaker configured with no trial requests admits nothing until a request admitted before the trip
  reports (`NoTrialsWaitForReports`), and is stranded when none is left to do so (`HalfOpenLeavesIff`,
  `StrandedWithoutTrials`); with at least one trial request, which is the default, that cannot happen.
- Duplicate header fields are said to be coalesced; the code keeps the last value
  (src/http/HttpParser.cpp:86-91, `AcceptedIffWellFormed`).
- `trim` of blanks followed by carriage returns only wraps its length around, so `X: \r` is refused while `X:\r` is
  an empty value (src/http/HttpParser.cpp:15-20, `ReturnsAlone`).

## Model

| member | source | states |
|---|---|---|
| `Resumption.ResumptionRefinesRestart` | src/http/HttpParser.cpp:98-162 | After any sequence of appends and parses without a rejected message, the next call returns the status, request and remainder that a fresh parser returns on the whole buffer: saved progress is never observable |
| `Resumption.ResumeAgrees` | src/http/HttpParser.cpp:98-162 | One resumed call from any state that stands for its bytes agrees with the stateless parser and leaves such a state again |
| `Resumption.ScanIsRead` | src/http/HttpParser.cpp:63-96 | Scanning headers up to the saved position and going on after more bytes arrive reads the same fields as starting at the first header line, for every continuation |
| `Resumption.ScanNow` | src/http/HttpParser.cpp:63-96 | With nothing more to come, the resumed scan and the reader of whole sections give the same verdict, map and remainder |
| `Resumption.HarmlessRunIsCoherent` | src/http/HttpParser.cpp:98-162 | Every run without a rejected message, late line ends included, ends in a state that stands for its bytes |
| `Resumption.RejectionDooms` | src/http/HttpParser.cpp:98-161 | The state an exception leaves behind, for any reason but a length limit, can never lead to a complete request |
| `Resumption.DoomedStaysDoomed` | src/http/HttpParser.cpp:98-161 | No further call brings such a state back |
| `Resumption.RejectionIsPermanent` | src/http/HttpParser.cpp:98-161 | In every run, no call after a rejection (length limits apart) completes a request, whatever arrives later |
| `Resumption.ScanKeepsBadFraming` | src/http/HttpParser.cpp:85-128 | Header lines read after bad framing cannot repair it |
| `Chunking.ParseOneExtends` | src/http/HttpParser.cpp:98-162 | More bytes never change a parsed request, only lengthen the remainder, and never lift a rejection other than a length limit |
| `Chunking.ReadStreamAppend` | src/core/Gateway.cpp:103-115 | Reading a stream in two parts yields the requests of the parts in order |
| `Chunking.ReceiveAllReads` | src/core/Gateway.cpp:103-115 | However the appended bytes are cut, draining after every piece has passed on the same requests and holds the same leftover as draining all of them at once |
| `Chunking.ChunkingInvisibleIff` | src/http/HttpParser.cpp:23-27 | For the parser and its drain loop, with closing ignored: all cuts of a stream give the requests, leftover and refusal of a single read if and only if the single read is refused or all finished lines stay below the two limits |
| `Serving.ServeStopsDrain` | src/core/Gateway.cpp:103-115 | Stopping at a closing request or an error serves exactly the prefix that the unstopped loop would serve |
| `Serving.RecvMeans` | src/core/Gateway.cpp:87-101 | The read loop takes every byte up to and with the first read below 16384 bytes; they count as drained unless that read is an error or the end of the stream |
| `Serving.ServeLeaves` | src/core/Gateway.cpp:103-115 | What one drain serves, followed by what its buffer still holds, is the stream it found; something is left only after a request that ends the connection |
| `Serving.ServedInOrder` | src/core/Gateway.cpp:82-187 | On any socket, slow ones included, and however the rounds are cut and ended: a connection serves the requests of the drained bytes in order, none skipped or repeated, and at least those up to the first that ends the connection |
| `ServedCuts.ServedAlike` | src/core/Gateway.cpp:82-187 | On a socket that takes replies at once and with all rounds drained, a stream whose lines are short up to the end of the connection is served, refused and closed as in one read, however it is cut |
| `ServedCuts.CutsDoNotShowIff` | src/core/Gateway.cpp:82-231 | All such cuts of a stream serve, refuse and close as one read does if and only if every finished line of every message up to the closing one, or up to a refused one, is short |
| `ServedCuts.LongLineShows` | src/core/Gateway.cpp:103-117 | A request with a long line, whatever follows it: served when read at once, refused with nothing served when cut before the end of that line |
| `ServedCuts.ServesToCloseIff` | src/core/Gateway.cpp:103-231 | On any socket and for any rounds, exactly the requests up to the first that ends the connection are served if and only if no round finds a further one complete while the close waits for the socket |
| `ServedCuts.SlowSocketServesOn` | src/core/Gateway.cpp:114-117 | A request that arrives after a closing one whose reply still waits is served, for every such pair |
| `ServedCuts.ClosingRequest` | src/http/HttpParser.cpp:141-146 | Such a closing request: version 1.0 without a connection field |
| `Serving.LostAtEnd` | src/core/Gateway.cpp:96-100 | A round that ends in end of stream or an error serves nothing, and everything up to the closing request has been served if and only if that request had been, or the undrained bytes complete none |
| `ServedCuts.EndOfStreamLosesRequest` | src/core/Gateway.cpp:87-100 | A request of exactly 16384 bytes followed by end of stream is never parsed; cut one byte earlier it is served |
| `Chunking.ParsedTakesPrefix` | src/http/HttpParser.cpp:129-158 | A request takes a prefix of the buffer that is a complete message by itself; pipelined bytes are untouched |
| `Chunking.CutLongLine` | src/http/HttpParser.cpp:24-27 | For every accepted stream with a long line there is a cut whose first part is refused |
| `Grammar.ParsedIffMessage` | src/http/HttpParser.cpp:22-162 | The parser accepts exactly the messages of the grammar (request line, header lines, blank line, body of the declared length) and splits off exactly one |
| `LineForms.RequestLineForm` | src/http/HttpParser.cpp:28-59 | A request line is accepted if and only if it is written method, space, path with or without a query, space, version, and is read as those parts |
| `LineForms.FieldForm` | src/http/HttpParser.cpp:74-84 | A header line is accepted if and only if it is written as a padded name without blanks, a colon, and a padded value without line ends, and is read as the lower-case name and the value |
| `LineForms.ParsedIffText` | src/http/HttpParser.cpp:22-162 | The parser accepts exactly the texts made of such lines, with at most 100 fields, no repeated framing field, a declared length without a transfer coding or none without chunked coding, a body of that length, reads every name with its last value, and keeps the connection exactly as version and connection field say |
| `LineForms.RefusedIffText` | src/http/HttpParser.cpp:22-128 | A buffer is refused if and only if its first lines are such a text gone wrong: a line that is too long and unfinished, a request line or field of no accepted form, too many or repeated fields, or framing that names no length; everything else parses or waits |
| `LineForms.FramingForm` | src/http/HttpParser.cpp:111-127 | Framing names a length if and only if a length field in decimal of at most 10485760 stands without a transfer coding, or there is none and no transfer coding says chunked; each refusal has its own condition |
| `Grammar.LengthLimitIsNotPermanent` | src/http/HttpParser.cpp:24-27 | Every request line of this family is refused as too long, then accepted once its end arrives |
| `Fields.AcceptedIffWellFormed` | src/http/HttpParser.cpp:63-96 | A header section is accepted if and only if every line is a field, there are at most 100 and no framing field is repeated; the map then holds every name with its last value |
| `Fields.ReturnsAlone` | src/http/HttpParser.cpp:15-20 | Carriage returns alone are an empty value, a blank in front of them makes the header invalid, for any number of them |
| `HttpParserClass.HttpParser.constructor` | include/http/HttpParser.hpp:43-52 | A new parser stands for the empty stream |
| `HttpParserClass.HttpParser.Append` | include/http/HttpParser.hpp:23 | Appending keeps what the saved progress stands for, and a doomed parser doomed |
| `HttpParserClass.HttpParser.ReadRequestLine` | src/http/HttpParser.cpp:22-61 | The in-place request line parser, its exceptions and its fields are those of the machine's first phase |
| `HttpParserClass.HttpParser.ReadHeaders` | src/http/HttpParser.cpp:63-96 | The header loop leaves exactly the map, count and saved position of the recursive scan, also when it throws |
| `HttpParserClass.HttpParser.CheckFraming` | src/http/HttpParser.cpp:111-127 | The framing checks and the fields they leave behind; they pass exactly on the framing that names a length in the text form |
| `HttpParserClass.HttpParser.Parse` | src/http/HttpParser.cpp:98-162 | Returns what the stateless parser returns on the buffer, or, once doomed, never a request |
| `HttpParserClass.HttpParser.StartOver` | src/http/HttpParser.cpp:149-156 | After a request the parser is a new one on the remaining bytes |
| `HttpParserClass.ReadSocket` | src/core/Gateway.cpp:87-101 | The read loop appends exactly the bytes up to the first short read, would-block, end of stream or error, and says whether they are to be drained |
| `HttpParserClass.DrainRequests` | src/core/Gateway.cpp:103-115 | The drain loop hands over exactly the requests of the buffered stream up to the first that ends the connection, reports an error exactly when the stream is refused before that, and otherwise keeps exactly its remainder |
| `HttpParserClass.OnReadable` | src/core/Gateway.cpp:82-115 | One wakeup is the read loop followed by the drain loop, or by a close with the bytes unread |
| `Decimal.ValueOfPrint` | src/core/Gateway.cpp:356 | A printed length is read back as the same number |
| `BackendRequest.BuildBackendRequest` | src/core/Gateway.cpp:342-359 | The text written line by line is request line, host, end-to-end fields, own fields, blank line and body, for any map order |
| `RequestRoundTrip.ParsedIsClean` | src/http/HttpParser.cpp:29-91 | Whatever the parser accepts has a valid method, a rooted path and fields free of line ends and outer blanks |
| `RequestRoundTrip.BackendRequestRoundTrip` | src/core/Gateway.cpp:342-359 | For every parsed request, map order and following bytes, the forwarded text is parsed as the same method, path, query and body over the end-to-end and own fields, leaving exactly those bytes; with more than 100 fields, and only then, it is refused |
| `RequestRoundTrip.BackendSees` | src/core/Gateway.cpp:342-359 | Field by field: a backend reads the gateway's host, request id, forwarded-for and keep-alive, the length of a body that is not empty, and of the client's fields exactly those that are not one of the nine held back |
| `Grammar.TooManyToForward` | src/core/Gateway.cpp:342-359 | For 97 to 100 end-to-end fields: the request is accepted, and what is forwarded, in every map order, is refused by the same parser |
| `RequestRoundTrip.ReadAllLines` | src/core/Gateway.cpp:345-356 | The header lines written are read as the end-to-end fields overridden by the gateway's own |
| `RequestRoundTrip.SentFraming` | src/core/Gateway.cpp:355-357 | The forwarded framing declares exactly the body and keeps the connection alive |
| `RequestRoundTrip.ReadPrintedLines` | src/http/HttpParser.cpp:63-96 | Printed lines closed by a blank line are read one by one, errors included |
| `Response.SetFirstMeans` | include/http/HttpResponse.hpp:15-20 | Setting a header changes the first header of exactly that name, or adds one at the end when there is none, and leaves every other header in place |
| `Response.HttpResponse.Make` | include/http/HttpResponse.hpp:22-28 | A new response has the given status and body and no headers |
| `Response.HttpResponse.SetHeader` | include/http/HttpResponse.hpp:15-20 | The in-place loop is the function that SetFirstMeans is about |
| `Response.HttpResponse.Serialize` | include/http/HttpResponse.hpp:32-45 | The loop with its two flags writes the stored fields followed by the missing ones of length and connection |
| `ResponseReader.Receive` | src/core/Gateway.cpp:390-457 | The receive loop over any sequence of reads is the fold that the round trips are about, failures included |
| `ResponseText.ResponseIsRead` | src/core/Gateway.cpp:397-457 | A status line, fields, blank line and body of the declared length: whatever the cuts, what is received has that code, reason and body, every field but the five held back, under its lower-case name and in order, and may be reused exactly if there is a connection field and the last one does not say close; it fails exactly when a field has no colon or names a coding, the length is missing, repeated or bad, the body is cut short, or a limit is exceeded |
| `ResponseText.ReceivedIsText` | src/core/Gateway.cpp:397-457 | Whatever is received, from any bytes and cuts, is such a text, and its headers, body and reuse are what the text says, also when the status line lacks its second space |
| `ResponseText.FoldMeans` | src/core/Gateway.cpp:411-441 | The header loop keeps the fields not held back, the length and the last word on the connection, or fails |
| `ResponseRoundTrip.HeadIsRead` | src/core/Gateway.cpp:408-440 | A written header section is found and read as soon as it is complete, whatever part of the body came with it |
| `ResponseRoundTrip.SerializedIsReadBack` | src/core/Gateway.cpp:397-457 | Each single cut into reads of at most 8192 bytes is read back equal (names in lower case) if and only if no read exceeds 32768 bytes before the header section is complete; otherwise reading fails |
| `ResponseRoundTrip.ReadBackIff` | src/core/Gateway.cpp:408-410 | It is read back under every cut if and only if the message has at most 32768 bytes or its header section at most 24577 |
| `ResponseRoundTrip.BadCut` | src/core/Gateway.cpp:409 | Every response that does not fit has a cut under which reading fails |
| `ResponseRoundTrip.AtoiOfPrint` | src/core/Gateway.cpp:453 | Every status code that is printed is read back, negative ones included |
| `ProxiedResponse.ReceivedIsPlain` | src/core/Gateway.cpp:411-457 | Whatever a backend sends and however it is cut, a received response has headers that can be printed and read back, and no line end in its reason phrase if its status line has both spaces |
| `ProxiedResponse.OneContentLength` | include/http/HttpResponse.hpp:35-42 | Printable headers go out unchanged, followed by one content length, the size of the body, and one connection field, keep-alive or close |
| `ProxiedResponse.GatewayEditsArePlain` | src/core/Gateway.cpp:168-180 | The headers the request handler sets can be printed and read back |
| `ProxiedResponse.ProxiedResponseRoundTrip` | src/core/Gateway.cpp:374-457 | From backend bytes to client bytes: the headers, one content length and one connection field go out, and the response is read back equal under every cut if and only if its reason phrase holds no line end and its header section fits |
| `ProxiedResponse.NotEveryResponseFits` | src/core/Gateway.cpp:408-410 | A response that is received under one cut, and with its request id set does not fit: it is lost under another |
| `ProxiedResponse.MissingReason` | src/core/Gateway.cpp:450-455 | A status line without reason and second space is accepted with a reason phrase that runs past its line end |
| `ProxiedResponse.OneRequestId` | src/core/Gateway.cpp:168-180 | A received response goes out with exactly one request id, counted without case, if and only if the backend sent none, also through the cache |
| `ProxiedResponse.TwoRequestIds` | src/core/Gateway.cpp:421-435 | A received response with a request id of the backend's own goes out with two |
| `OutputStream.ClientConnection.QueueResponse` | src/core/Gateway.cpp:195-199 | Appends to the pending bytes and records whether to close |
| `OutputStream.ClientConnection.FlushIfPossible` | src/core/Gateway.cpp:201-231 | The send loop over any results of send, with its three ways out |
| `OutputStream.ClientConnection.CloseConnection` | src/core/Gateway.cpp:235-242 | Closes whatever is pending and sends nothing |
| `OutputStream.SendLoopConserves` | src/core/Gateway.cpp:207-231 | A flush neither loses, repeats nor reorders bytes, and closes over unsent ones exactly when a send fails before all are taken |
| `OutputStream.FlushSends` | src/core/Gateway.cpp:207-231 | A flush sends exactly the bytes the socket takes, closes after the last one exactly if asked to, and before that exactly if a send fails |
| `OutputStream.HandleSettles` | src/core/Gateway.cpp:74-118 | Every event keeps the stream, leaves write interest registered exactly while bytes are pending, and closes over unsent bytes exactly when a send fails or the connection is closed while bytes are pending |
| `OutputStream.OutputIsConserved` | src/core/Gateway.cpp:52-242 | Over every run, closes by the peer, by errors and by the worker's end included: bytes sent followed by bytes pending are the queued responses in order, and a closed connection has sent them all if and only if no send failed over unsent bytes and no close without a flush found any pending |
| `OutputStream.GoneLosesReply` | src/core/Gateway.cpp:96 | A reply that waits for the socket when the client ends its stream is never sent, though no send failed |
| `Connections.AnsweredInOrder` | src/core/Gateway.cpp:74-242 | Over every life of a connection, reading, serving and sending together: the bytes sent followed by those pending are the answers to the requests served and the errors met, one each and in order |
| `Connections.LiveFollows` | src/core/Gateway.cpp:74-242 | With every send result, the requests, errors and close of a connection are those of a session whose flushes are read off the sends |
| `Connections.LiveServesInOrder` | src/core/Gateway.cpp:74-242 | Whatever the sends do, the requests of the bytes taken are served in order, at least up to the first that ends the connection, and no further exactly if none overruns the close |
| `LruSpec.RunKeepsShape` | include/cache/LRUCache.hpp:21-71 | Keys stay distinct and the capacity is never exceeded |
| `LruSpec.StoredIsLastPut` | include/cache/LRUCache.hpp:21-71 | Every stored entry is what the last put of its key stored, not invalidated or cleared since |
| `LruSpec.HitIsFresh` | include/cache/LRUCache.hpp:21-37 | A hit returns the last value put; with a positive time to live it was put at most that long ago |
| `LruSpec.LargerCacheIncludesSmaller` | include/cache/LRUCache.hpp:21-71 | For every run with expiry and invalidation, a larger cache holds everything a smaller one holds, in the same order, and repeats all its hits |
| `LruSpec.KeptWhileFewUsed` | include/cache/LRUCache.hpp:48-55 | Only entries put or hit since stand in front of an entry, and eviction spares it while they are fewer than the capacity; missed lookups do not count |
| `LruSpec.RetainedWhileFewUsed` | include/cache/LRUCache.hpp:21-56 | An entry with fewer than `capacity` other keys put or hit since its last use is returned if there is no time to live or it was put at most that long ago, and missed otherwise |
| `LruCacheClass.LRUCache.constructor` | include/cache/LRUCache.hpp:18-19 | An empty cache |
| `LruCacheClass.LRUCache.Get` | include/cache/LRUCache.hpp:21-37 | The in-place lookup with splice and erase keeps list and index in bijection and computes the list specification; it returns the indexed value exactly while its age is within the time to live or there is none |
| `LruCacheClass.LRUCache.Put` | include/cache/LRUCache.hpp:39-56 | Likewise for replacement, insertion and eviction |
| `LruCacheClass.LRUCache.Refresh` | include/cache/LRUCache.hpp:43-46 | Rewrites the node in place and moves it to the front, leaving the other entries in order |
| `LruCacheClass.LRUCache.Insert` | include/cache/LRUCache.hpp:48-55 | A new entry in front, the least recent one evicted when there are too many |
| `LruCacheClass.LRUCache.Invalidate` | include/cache/LRUCache.hpp:58-65 | Removes exactly that key |
| `LruCacheClass.LRUCache.Clear` | include/cache/LRUCache.hpp:67-71 | Removes everything |
| `LruCacheClass.LRUCache.Size` | include/cache/LRUCache.hpp:73-76 | The size of the index is the number of list entries, never above the capacity |
| `Breakers.CircuitBreaker.constructor` | include/resilience/CircuitBreaker.hpp:23-28 | Starts closed with no failures |
| `Breakers.CircuitBreaker.AllowRequest` | include/resilience/CircuitBreaker.hpp:32-48 | Admission and the new state, with the fall through from open to half-open; admitted exactly when closed, open for the reset timeout with a trial to give, or half-open with a trial left |
| `Breakers.CircuitBreaker.OnSuccess` | include/resilience/CircuitBreaker.hpp:50-57 | A success report in every state, late ones included |
| `Breakers.CircuitBreaker.OnFailure` | include/resilience/CircuitBreaker.hpp:59-70 | A failure report in every state, late ones included |
| `Breakers.CircuitBreaker.TripNow` | include/resilience/CircuitBreaker.hpp:78-83 | Opens and clears both counters |
| `BreakerHistory.AdmitsAsHistorySays` | include/resilience/CircuitBreaker.hpp:32-83 | For every history of asks and reports and any clock: a request is admitted exactly when the history says so, that is, while fewer than `threshold` failures in a row were reported; from the reset timeout after a trip on, a trip being also every full streak of late failures; and among the first `trialLimit` asks since, until the first report closes the breaker or trips it anew |
| `BreakerHistory.ClosedTrips` | include/resilience/CircuitBreaker.hpp:50-70 | A closed breaker trips at the failure that completes the streak, and until then only counts |
| `BreakerHistory.OpenEnds` | include/resilience/CircuitBreaker.hpp:34-70 | An open breaker refuses until the first ask that is due, unless a full streak of late failures trips it anew before |
| `BreakerHistory.TrialSettles` | include/resilience/CircuitBreaker.hpp:50-64 | The first report after half-opening closes the breaker with no failures counted, or trips it at that time |
| `Breakers.NoTrialsWaitForReports` | include/resilience/CircuitBreaker.hpp:43-64 | With no trial requests configured, asks are refused and change nothing, and a run leaves the half-open state exactly when some earlier request reports |
| `Breakers.AdmissionsAfterTrip` | include/resilience/CircuitBreaker.hpp:32-83 | After a trip, until it closes, at most the trial limit is admitted for each full reset timeout that has passed, over every run of asks and reports |
| `Breakers.CounterIsStreak` | include/resilience/CircuitBreaker.hpp:50-70 | While closed, the counter is exactly the number of failures since the last success, below the threshold |
| `Breakers.TripNeedsThreshold` | include/resilience/CircuitBreaker.hpp:66-69 | A closed breaker opens only on the last of exactly `threshold` failures with no success between them |
| `Breakers.LateReports` | include/resilience/CircuitBreaker.hpp:59-70 | Until the next admission, through any refused asks, a tripped breaker stays open and every further trip uses up `threshold` failures |
| `Breakers.ReTripsBounded` | include/resilience/CircuitBreaker.hpp:32-83 | Before the next admission, whatever is asked and refused meanwhile, a breaker is re-tripped at most failures / threshold times in every run, if and only if there is a trial request or the threshold is 1 |
| `Breakers.OneFailureReTrips` | include/resilience/CircuitBreaker.hpp:34-64 | Without trial requests, a refused ask after the timeout half-opens the breaker, and a single late failure re-trips it |
| `BreakerRuns.PlayIsRun` | src/core/Gateway.cpp:469-496 | In every continuation of every interleaving, a breaker goes through the run of its asks and reports, and the requests that owe it a report are those that did before and those admitted since, less one for each report |
| `BreakerRuns.OutstandingReTrips` | src/core/Gateway.cpp:469-496 | In every interleaving, the k requests that owe a tripped breaker a report can re-trip it at most k / threshold times before its next admission |
| `BreakerRuns.RefusedAsHistorySays` | src/core/Gateway.cpp:469-472 | In every interleaving, a worker is refused by the breaker of its backend, and records the attempt as refused, exactly when what all workers asked and reported there before says so |
| `Pool.KeyInjective` | include/network/ConnectionPool.hpp:45 | Two addresses share a pool key only if they are equal, colons and digits in host names included |
| `Pool.ConnectionPool.constructor` | include/network/ConnectionPool.hpp:23-24 | Starts with no idle descriptor |
| `Pool.ConnectionPool.Acquire` | src/network/ConnectionPool.cpp:51-63 | The oldest idle descriptor of that address, else the dialled one; no other deque changes |
| `Pool.ConnectionPool.Release` | src/network/ConnectionPool.cpp:65-74 | Keeps the descriptor last in its deque, or closes it when the deque is full |
| `Pool.ConnectionPool.Discard` | src/network/ConnectionPool.cpp:76-78 | Closes valid descriptors only and touches no deque |
| `Pool.ConnectionPool.IdleCount` | src/network/ConnectionPool.cpp:80-85 | The number of idle descriptors for that address, 0 for an unknown one |
| `Pool.ConnectionPool.CloseAll` | src/network/ConnectionPool.cpp:87-93 | Empties every deque and closes the idle descriptors, each once for each place it has, deque by deque in any order |
| `PoolRuns.IdleIsLine` | src/network/ConnectionPool.cpp:51-74 | Over every run, the idle descriptors of an address are those kept for it and not yet taken, in the order of their return, whatever happens to other addresses |
| `PoolRuns.NextInLine` | src/network/ConnectionPool.cpp:51-74 | After every run, acquiring takes the one kept longest and finds none exactly when all were taken; releasing closes exactly when `maxIdle` are idle |
| `PoolRuns.PoolIsRun` | src/core/Gateway.cpp:475-488 | In every interleaving, the pool goes through the run of the acquires and releases of all workers |
| `PoolRuns.OldestIsReused` | src/core/Gateway.cpp:475 | In every interleaving, a worker goes on with the connection idle longest for its backend, and dials exactly when none is left |
| `PoolRuns.ReusableIsKept` | src/core/Gateway.cpp:486-488 | In every interleaving, the connection of an answer is kept exactly when it may be reused and fewer than `maxIdle` are idle for that backend, and closed otherwise |
| `Retry.BackoffDoubles` | include/resilience/RetryPolicy.hpp:25-28 | The backoff starts at the base and doubles until the cap cuts it |
| `Retry.TotalBackoffBound` | include/resilience/RetryPolicy.hpp:25-33 | The delays before n retries sum to at most n times the cap and at most base times 2^n - 1, and can reach the latter if and only if the cap cuts none of them |
| `Forwarding.MoveKeepsActive` | src/core/Gateway.cpp:474-483 | Every move of any worker keeps each counter equal to the number of workers using that backend |
| `Forwarding.MoveKeepsTrials` | src/core/Gateway.cpp:469-496 | Every move keeps each half-open breaker's counter equal to its unreported requests of this period |
| `Forwarding.NextKeepsEffort` | src/core/Gateway.cpp:463-508 | Every move keeps requests sent and time slept within what the attempt number allows |
| `Forwarding.NextKeepsAttempts` | src/core/Gateway.cpp:463-509 | Every move keeps the record of attempts complete, one entry for each attempt made, and the reply the one it calls for |
| `Forwarding.ReplyIsLoop` | src/core/Gateway.cpp:462-510 | A finished forward returned what the loop of one worker returns for its attempts, and made none after that was settled |
| `Ownership.MoveKeepsOwned` | src/core/Gateway.cpp:475-495 | Every move keeps one owner, a worker or one deque, for every open descriptor |
| `Interleavings.DescriptorsAlwaysSafe` | src/core/Gateway.cpp:462-510 | In every interleaving of any number of workers: open descriptors are exactly the idle and the held ones, none in two places, each used for the address it was dialled for, no deque too long, none closed twice |
| `Interleavings.HalfOpenNeverStranded` | src/core/Gateway.cpp:469-496 | In every interleaving, a half-open breaker has between one and `trialLimit` admitted requests whose workers still owe a report, the next report settles it, and at most seven turns of one such worker alone are enough to get there |
| `Interleavings.HalfOpenLeavesIff` | src/core/Gateway.cpp:469-496 | For every trial limit and from every reachable state, a half-open breaker can still be settled if and only if some worker owes it a report |
| `Interleavings.StrandedWithoutTrials` | include/resilience/CircuitBreaker.hpp:34-46 | With no trial requests, one failed attempt and one ask leave a breaker half-open that no continuation settles |
| `Interleavings.ActiveIsExact` | src/core/Gateway.cpp:474-483 | In every interleaving, a backend's counter is the number of workers using it, between 0 and the number of workers |
| `Interleavings.EffortAlwaysBounded` | src/core/Gateway.cpp:463-508 | In every interleaving, one forward sends at most maxRetries + 1 requests and sleeps at most the summed backoffs |
| `Interleavings.OnlyFailuresAreRetried` | src/core/Gateway.cpp:462-510 | In every interleaving, a forward returns what the loop of one worker returns for the outcomes of its attempts: refusals, lost answers and 502, 503 and 504 are retried and nothing else; retries are exhausted exactly when all were made and the last was refused; no backend is reported exactly when the last pick named none; an answer worth retrying or a gateway error is returned in the last attempt only |
| `Interleavings.AttemptsAreRecorded` | src/core/Gateway.cpp:465-481 | Over every turn, the record of a forward grows by what that turn brought its worker: a pick that named none, a refusal, the answer of the backend or its loss |
| `Interleavings.ForwardsEnd` | src/core/Gateway.cpp:464-508 | In every interleaving, each turn of a worker in a forward brings its end nearer, so that at most 10 turns for each attempt and one more finish it |
| `Interleavings.ShutdownClosesEverything` | src/core/Gateway.cpp:527-531 | Once all workers rest, all counters are 0 and closing the pool, in any order of its deques, leaves no descriptor open and closes none twice |
| `Interleavings.CloseDequesGathered` | src/network/ConnectionPool.cpp:87-93 | Closing deque by deque, as at shutdown, closes the descriptors that the pool's own loop closes, in the same order |
| `RateLimiter.TokenBucketRateLimiter.constructor` | include/resilience/RateLimiter.hpp:15-16 | No buckets |
| `RateLimiter.TokenBucketRateLimiter.Allow` | include/resilience/RateLimiter.hpp:19-36 | Decision and new bucket of that key; all other buckets unchanged |
| `RateLimiter.PotentialFalls` | include/resilience/RateLimiter.hpp:27-35 | Tokens less accrual never rise and fall by at least the admitted cost, in any clock order |
| `RateLimiter.WindowBound` | include/resilience/RateLimiter.hpp:19-36 | Between any two calls of a key, the second admitted, the admitted cost is at most the capacity plus what accrues between their clock readings, in any clock order and from any history |
| `RateLimiter.AdmittedExactly` | include/resilience/RateLimiter.hpp:19-36 | A call is admitted if and only if, for every earlier call and itself, its cost and the cost admitted in between fit in the capacity plus the rate times the seconds since that call, in any clock order |
| `RateLimiter.ZeroClockForgets` | include/resilience/RateLimiter.hpp:24-26 | A call at clock value 0 leaves a bucket that counts as never used: the decisions after it are those of a new one |
| `RateLimiter.RejectedCallsLeaveNoTrace` | include/resilience/RateLimiter.hpp:27-35 | With clock readings in order, deleting any rejected calls changes no other decision |
| `RateLimiter.ErasableIffOrdered` | include/resilience/RateLimiter.hpp:20-29 | For positive limits, rejected calls leave no trace whatever the costs if and only if the clock readings are in order |
| `RateLimiter.ErasureNeedsOrder` | include/resilience/RateLimiter.hpp:20-29 | Three calls, the last with an older reading, in which a rejected call costs a later one its admission |
| `RateLimiter.KeysAreIsolated` | include/resilience/RateLimiter.hpp:22 | In every mixed run, the decisions for a key are those of a bucket that sees that key's calls only |
| `Router.Router.constructor` | include/routing/Router.hpp:44 | No routes |
| `Router.Router.AddRoute` | include/routing/Router.hpp:22-27 | Adds exactly that route and keeps the routes sorted by length, in any order of ties |
| `Router.Router.Match` | include/routing/Router.hpp:29-39 | The first route in order whose prefix is the path or ends at a segment boundary |
| `Router.MatchesBySegments` | include/routing/Router.hpp:29-39 | A route takes exactly the paths whose segments begin with the segments of its prefix, and the prefix `/` takes every path |
| `Router.FirstIsLongest` | include/routing/Router.hpp:16-39 | The match is a longest matching route, and none only if no route matches |
| `Router.MatchIsTheLongest` | include/routing/Router.hpp:16-39 | With distinct rooted prefixes, a route is returned if and only if it is the longest that matches |
| `Router.OrderDoesNotMatter` | include/routing/Router.hpp:22-39 | With distinct rooted prefixes, every order of adding and of sorting ties routes every path alike |
| `CacheHits.CacheKeyRoundTrip` | include/http/HttpRequest.hpp:26-28 | Method, path and query can be recovered from the cache key of a parsed request |
| `CacheHits.CacheKeyInjective` | include/http/HttpRequest.hpp:26-28 | Parsed requests share a key if and only if method, path and query agree |
| `CacheHits.HitAnswersSameRequest` | src/core/Gateway.cpp:152-182 | Over every interleaving of lookups and answers, a hit is a status 200 response that some worker got for a GET or HEAD with the same path and query on a cacheable route, within a positive time to live |
| `CacheHits.StoredAnswerIsServed` | src/core/Gateway.cpp:152-182 | A status 200 response to a GET or HEAD on a cacheable route is served to every later lookup within the time to live, and to none after it, while it is not replaced and fewer than `capacity` other requests came since |
| `LoadBalancer.LoadBalancer.constructor` | include/routing/LoadBalancer.hpp:34-36 | Starts at ticket 0 |
| `LoadBalancer.LoadBalancer.PickRoundRobin` | include/routing/LoadBalancer.hpp:51-58 | The loop takes tickets up to the first healthy backend, at most one round |
| `LoadBalancer.LoadBalancer.PickLeastConnections` | include/routing/LoadBalancer.hpp:60-72 | The first healthy backend with the fewest connections; none if and only if none is healthy |
| `LoadBalancer.RoundNamesEachOnce` | include/routing/LoadBalancer.hpp:54 | From any counter, a round of tickets names each healthy backend exactly once |
| `LoadBalancer.PicksFollowTickets` | include/routing/LoadBalancer.hpp:51-58 | Successive picks are the healthy tickets in order, none skipped or repeated |
| `LoadBalancer.RoundRobinIsFair` | include/routing/LoadBalancer.hpp:51-58 | From any counter, as many picks as there are healthy backends choose each of them exactly once |
| `LoadBalancer.PickFailsOnlyWithoutHealthy` | include/routing/LoadBalancer.hpp:51-58 | A pick fails if and only if no backend is healthy, and never names an unhealthy one |
| `Histogram.LatencyHistogram.constructor` | include/observability/Metrics.hpp:20-24 | No samples |
| `Histogram.LatencyHistogram.Record` | include/observability/Metrics.hpp:26-32 | The bucket counts stay those of the recorded samples |
| `Histogram.LatencyHistogram.Percentile` | include/observability/Metrics.hpp:35-47 | The bound of the least bucket with enough samples at or below it, 0 without samples, the largest value when the rank exceeds their number |
| `Histogram.PercentileIsMonotone` | include/observability/Metrics.hpp:35-47 | A larger rank never reports a smaller latency, with or without samples and past their number; every report is at most one second or the largest value |
| `Histogram.ReportedMeans` | include/observability/Metrics.hpp:13-47 | A percentile reads as the least of the thirteen bounds with enough samples at or below it, as the last of them when only the open bucket has enough, and as the largest value past the number of samples |

## Left out

- ServedCuts.ServedAlike: is about sockets that take replies at once; on others `ServesToCloseIff` says exactly when more is served.
- Router.MatchIsTheLongest: assumes distinct prefixes that start with `/`; with equal prefixes `std::sort` leaves open which route comes first, and `FirstIsLongest` is all that holds.
- RateLimiter.WindowBound: assumes clock readings other than 0, the value by which the code recognises a new bucket; `ZeroClockForgets` says what such a reading does.
- RateLimiter.AdmittedExactly: likewise.
- CacheHits.HitAnswersSameRequest: bounds the age only for a positive time to live, since 0 turns expiry off.
- Histogram.LatencyHistogram.Percentile: leaves out negative ranks, whose conversion to an unsigned integer is undefined.
- LoadBalancer.RoundRobinIsFair: holds while health does not change and one worker picks; tickets of concurrent picks interleave.
- `forwardWithResilience` is a state machine over values and not a method, because its claims are about interleavings; picks are arbitrary there, so the choice of the load balancer is proved separately.
- Machine widths: the parser's lengths are bounded as in the code (64-bit `from_chars`, the wrapped lengths of `substr`), but counters of requests, tickets, samples and failures are unbounded, ports are not negative, and `atoi` does not overflow.
- Floating point: token counts, delays and ranks are exact reals; the distribution of the random delay is not modelled, only its range.
- Characters: `tolower`, `isupper` and `isspace` as in the C locale.
- Epoll, DNS, timeouts and the send loop of `sendAndReceive`; they decide which inputs the model receives.
- That a connection with a pending close ever closes: a later response may clear the flag of an earlier one, in the model as in the code.
- `HttpParser::reset`, which nothing calls.
- The branches of `handleRequest` that only choose a fixed response (metrics, health, 429, 404), health checks, configuration, logging, request ids and the Prometheus text. When the idle sweep closes a connection is left out; that it does is one of the closes of `OutputStream`.
- What the protocol leaves to peers: fields nominated by `Connection`, chunked coding, bodies of answers to HEAD, and backend bytes after the declared length; the code rejects, forwards or drops these, and the model likewise, without further claims.
