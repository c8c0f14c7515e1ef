# A verified model of FalconLink

FalconLink is an epoll network library with an HTTP server on top. This project models its hard parts in
Dafny and proves what they are for: that the LRU file cache is never visible in what clients receive, that the
HTTP text layer reads back what it prints, that the reactor, the thread pool and the logger are safe in every
interleaving, and that the bracket scanners and the nesting stack of the bundled linter do what a plain matcher
and a plain reading of the first preprocessor branch do.

| file | content |
|---|---|
| `Options.dfy`, `Text.dfy`, `Url.dfy` | optional values; searching, splitting, joining, blocks ended by a blank line, percent-encoding |
| `Requests.dfy`, `Responses.dfy` | headers, request parsing, response building, a client that reads responses |
| `Connections.dfy` | byte buffers, the `recv` and `send` loops over arbitrary kernel results |
| `Lru.dfy`, `Caches.dfy` | the plain LRU sequence, and the linked list, map and counter that refine it |
| `Sites.dfy` | the server without a cache: one answer per request, streams of requests, replies on the wire |
| `Handlers.dfy`, `Interleaving.dfy` | the handler over cache and connection; many connections over one cache, step by step |
| `Delivery.dfy` | from file names through encoding, pipelining, serving and reading back to the file contents |
| `Reactor.dfy`, `ThreadPool.dfy`, `Logger.dfy` | the threads as step systems, every interleaving |
| `Brackets.dfy`, `Scanner.dfy`, `Expressions.dfy`, `Templates.dfy` | balanced brackets; the forward and backward scanners; whole files; template arguments |
| `Nesting.dfy` | the nesting stack with its preprocessor checkpoints |

## How the source is rendered

- A `char` stands for one byte of a `std::string`. Sizes are natural numbers; that `capacity_ - occupancy_` never
  wraps is part of the cache invariant.
- The C++ objects that change their fields are classes with `modifies` clauses (`Cache`, `CacheNode`, `Buffer`,
  `Connection`, `RequestParser`, `Response`, `HttpServer`); so is `NestingState` of the linter. Each mutating
  method is proved equal to a function of the old state, and the promises are proved of that function.
- Kernel results are inputs: `Recv` and `Send` take the sequence of values that `::recv` and `::send` return, and
  results that run out stand for "nothing more to read" and for a write that is still waiting. File contents, the
  output of CGI programs and clock readings are inputs too; files do not change while the server runs.
- Threads are modelled as steps of one state machine, one step per critical section or atomic access. A step that
  is not enabled changes nothing, so a theorem about `Exec(steps)` for every `steps` is about every run.
- The linter's regular expressions are predicates. `Scanner.Sound` is all that is asked of them, and
  `Scanner.PythonRulesSound` proves it of the expressions the code uses.

## Where the code and its documentation differ

- A connection is closed unless a header asks to keep it (falconlink/include/http/request.hpp:50), unlike section 9.3
  of RFC 9112. The model follows the code.
- A HEAD request that runs a CGI program is answered with the program's output
  (examples/http_server/http_server.cpp:68-76), where section 9.3.2 of RFC 9110 allows no content. A client stays in
  step exactly when no request answered is a HEAD whose program prints something (`Sites.HeadPrints`,
  `Sites.ClientReadsStream`); `Delivery.MisreadHappens` exhibits a site and a request where it does not.
- A request whose bytes arrive together with the peer's close is dropped unanswered
  (examples/http_server/http_server.cpp:34-39). `Handlers.AllAnsweredExactly` says exactly when every complete request
  taken off the socket is answered, and `Delivery.LastGetIsDropped` gives an input where one is not.
- The comment in the writer loop says that the remaining logs are recorded before it exits
  (falconlink/common/logger.cpp:142-143); a log pushed while the strategy runs can stay behind
  (`Logger.LateLogIsLost`), and `Logger.FlushedExactly` says exactly when nothing does.
- A CGI path is meant to be cut at the `&` after `cgi-bin`. Exactly when no `&` stands at or after the first
  `cgi-bin` (falconlink/http/cgier.cpp:24-30, `Sites.CgiArguments`) the program is given the pieces of its own path as
  arguments: the path itself (`Sites.CgiWithoutArguments`), or two halves of it if a directory has an `&` in its name
  (`Sites.CgiSplitsDirectory`).
- `#if`, `#else` and `#endif` are meant to leave the first branch alone. A directive line that comes last, right after
  inline assembly has ended, also moves the assembly state on (build_support/cpplint.py:2846-2853), and one with a bare
  colon after a class head makes the class look derived (build_support/cpplint.py:2527-2530).
  `Nesting.ConditionalsAreFirstBranches` gives the exact condition, `Nesting.EndifLeavesTrace` and
  `Nesting.ColonLeavesMark` the inputs.

## Model
| member | source | states |
|---|---|---|
| `Text.FindFirst` | falconlink/http/http_utils.cpp:94 | `Find` returns the first occurrence, and `None` only if there is none |
| `Text.Split` | falconlink/http/http_utils.cpp:85-103 | the splitting loop computes `Tokens`, in which a delimiter at the end adds no empty token |
| `Text.Join` | falconlink/http/http_utils.cpp:105-118 | the joining loop computes `Joined` |
| `Text.JoinSplit` | falconlink/http/http_utils.cpp:85-118 | joining the tokens of any text gives the text less one trailing delimiter, for a delimiter that cannot overlap itself |
| `Text.SplitJoin` | falconlink/http/http_utils.cpp:85-118 | splitting joined tokens that are free of the delimiter gives them back less one trailing empty token |
| `Text.JoinSplitExactly` | falconlink/http/http_utils.cpp:85-118 | `join` undoes `split` on every text if and only if the delimiter has no border; otherwise a text that loses is exhibited |
| `Text.FirstBlankLine` | falconlink/common/buffer.cpp:30-40 | whatever follows a block of lines, its first CRLF CRLF is the one that ends it |
| `Text.CutIsBlock` | falconlink/common/buffer.cpp:30-40 | conversely every text cut just after its first CRLF CRLF is such a block and splits into its lines and one empty line |
| `Url.UrlEncode` | falconlink/http/http_utils.cpp:170-187 | the encoding loop computes `Encoded` |
| `Url.UrlDecode` | falconlink/http/http_utils.cpp:189-209 | the decoding loop, with its skipping index and its reading of malformed triplets, computes `Decoded` |
| `Url.UrlRoundTrip` | falconlink/http/http_utils.cpp:170-209 | decoding the encoding of any byte string gives it back |
| `Url.DecodeConcat` | falconlink/http/http_utils.cpp:170-209 | decoding distributes over concatenated encodings |
| `Url.EncodeConcat` | falconlink/http/http_utils.cpp:170-187 | encoding distributes over concatenation |
| `Url.EncodedIsCanonical` | falconlink/http/http_utils.cpp:170-187 | encoded text is made of unreserved characters and upper-case triplets only (sections 2.1 and 2.3 of RFC 3986) |
| `Url.UnreservedStays` | falconlink/http/http_utils.cpp:170-187 | a text is its own encoding if and only if all of it is unreserved, and anything else makes it longer |
| `Url.HexDigits` | falconlink/http/http_utils.cpp:182-184 | the digits written are `0` to `9` and `A` to `F`; both cases are read with their value |
| `Url.DecodeTriplet` | falconlink/http/http_utils.cpp:199-203 | a triplet is read as its byte, with digits of either case |
| `Url.DecodePlain` | falconlink/http/http_utils.cpp:193-196 | `+` is read as a blank and every other character but `%` as itself |
| `Url.MalformedTriplets` | falconlink/http/http_utils.cpp:198-203 | what two characters that are no digits are read as, after which three characters are gone |
| `Url.TruncatedTriplets` | falconlink/http/http_utils.cpp:198-203 | what a `%` at the end of the text is read as |
| `Requests.TrimIsSlice` | falconlink/http/http_utils.cpp:120-127 | `trim` removes exactly the characters of the delimiter set that stand at the two ends |
| `Requests.FormatSays` | falconlink/http/http_utils.cpp:120-136 | formatting a text gives a word if and only if the text is that word in letters of either case with blanks around it |
| `Requests.MethodMeans` | falconlink/http/http_utils.cpp:18-27 | GET and HEAD are exactly the texts that say `GET` and `HEAD` so |
| `Requests.VersionMeans` | falconlink/http/http_utils.cpp:29-35 | and the version is supported exactly for a text that says `HTTP/1.1` so |
| `Requests.KeepsAliveMeans` | falconlink/http/request.cpp:92-102 | a field keeps the connection if and only if its key says `CONNECTION` and its value `KEEP-ALIVE` so |
| `Requests.ParseHeader` | falconlink/http/header.cpp:15-25 | the parsing constructor computes `HeaderOf` |
| `Requests.HeaderRoundTrip` | falconlink/http/header.cpp:15-51 | a serialised header parses back to itself if and only if its key has no colon and its value is non-empty and does not end in one |
| `Requests.HeaderAccepted` | falconlink/http/header.cpp:15-25 | a line is a header if and only if something follows its first colon; key and value are what stands before and after, less one final colon |
| `Requests.RequestParser.constructor` | falconlink/http/request.cpp:20-49 | the parsing constructor, with its erasures, loop and early returns, computes `RequestOf` with the reason for every refusal |
| `Requests.RequestParser.ParseRequestLine` | falconlink/http/request.cpp:69-90 | fields or refusal reason are those of `RequestLineOf` |
| `Requests.RequestParser.ScanHeader` | falconlink/http/request.cpp:92-102 | `should_close_` is false exactly when some header so far formats to CONNECTION and KEEP-ALIVE |
| `Requests.RequestRoundTrip` | falconlink/http/request.cpp:20-102 | a printed supported request parses back to its method, version, target (with the default route) and headers in order, and closes unless a header keeps it alive |
| `Requests.RequestAccepted` | falconlink/http/request.cpp:20-49 | a block of lines is a valid request if and only if its first line is and every other line is a header; it then holds what each line says, in order, and closes unless a header says to keep the connection |
| `Requests.RequestLineAccepted` | falconlink/http/request.cpp:71-90 | what every request line is taken for: three tokens, the first saying GET or HEAD, the last HTTP/1.1, the target with `index.html` put at an empty end; or the exact reason why it is refused |
| `Requests.RequestRefused` | falconlink/http/request.cpp:33-44 | otherwise the reason is that of the first line, or names the first line that is no header |
| `Requests.CutIsWellFormed` | falconlink/http/request.cpp:21-32 | a frame cut at its first CRLF CRLF splits into at least two lines, the last empty and no header line empty, and is never refused for its format |
| `Responses.DecimalRoundTrip` | falconlink/http/response.cpp:44-46 | a printed length reads back to itself |
| `Responses.Response.constructor` | falconlink/http/response.cpp:30-58 | status line and headers for every combination of closing, resource and file |
| `Responses.Response.Serialize` | falconlink/http/response.cpp:60-70 | appends the head: status line, serialised headers, CRLF |
| `Responses.Response.ChangeHeader` | falconlink/http/response.cpp:74-83 | changes the first header of that key and no other, and tells whether there was one |
| `Responses.ChangedAt` | falconlink/http/response.cpp:74-83 | after a change exactly that one header differs |
| `Responses.MimeTable` | falconlink/http/http_utils.cpp:37-83 | the type for every extension, by what the extension says in either case and with blanks around it |
| `Responses.LastOfIsLast` | falconlink/http/response.cpp:48-49 | the extension is what follows the last dot, and there is none exactly without a dot |
| `Responses.ResponseHeadersGood` | falconlink/http/response.cpp:30-58 | every response has headers that parse back and exactly one Content-Length, that of its file or zero |
| `Responses.ReadFramed` | falconlink/http/response.cpp:60-70 | a client that reads by Content-Length gets a framed reply whole and finds the next one where it starts |
| `Connections.PopTillAppend` | falconlink/common/buffer.cpp:30-40 | bytes that arrive later never change the frame that is popped |
| `Connections.PoppedIsCut` | falconlink/common/buffer.cpp:30-40 | a popped frame ends at its own first delimiter |
| `Connections.Buffer.FindAndPopTill` | falconlink/common/buffer.cpp:30-40 | returns and removes the text up to and including the first target, or changes nothing |
| `Connections.Connection.Recv` | falconlink/net/connection.cpp:73-100 | for any kernel results, the bytes of `BytesRead` are appended and counted, and the exit flag is `PeerGone` |
| `Connections.ReadUpTo` | falconlink/net/connection.cpp:79-97 | an interrupt is passed over, the first other failure or end of stream ends the reading, all data before it is kept, and the peer counts as gone for the end of stream and a hard error but not for EAGAIN |
| `Connections.Connection.Send` | falconlink/net/connection.cpp:102-121 | for any short writes and retries, bytes sent, results used and outcome are those of `Push`; the buffer is cleared except while waiting |
| `Connections.PushOutcome` | falconlink/net/connection.cpp:108-119 | what goes out is as much of the text as the results have room for, up to the first that fails for good; the loop ends well exactly when the room is enough, fails exactly at such a result, and waits exactly when the results run out before |
| `Lru.EvictsShortestRun` | falconlink/net/cache.cpp:89-91 | eviction drops exactly the shortest front run of entries that makes room |
| `Lru.UsesExactly` | falconlink/include/net/cache.hpp:20-26 | a call counts as a use if and only if it loads a resident name, or inserts one that is not resident with at most `capacity` bytes |
| `Lru.UsedIsLast` | falconlink/net/cache.cpp:61-97 | a use puts its entry at the back with its clock reading, an insertion with its bytes; any other load or insertion changes nothing |
| `Lru.InsertedIsFound` | falconlink/net/cache.cpp:61-97 | after any run, an insertion of at most `capacity` bytes leaves the name resident: the next load finds it and the next insertion is refused |
| `Lru.RunFits` | falconlink/net/cache.cpp:89-95 | no run ever holds more bytes than the capacity |
| `Lru.LruOrder` | falconlink/include/net/cache.hpp:20-26 | after any run of calls the residents stand in the order of their last successful load or insert over the whole run, and nothing used more recently than a resident has been evicted |
| `Lru.StampsAreLastUses` | falconlink/net/cache.cpp:70 | every resident carries the clock reading of its last use |
| `Lru.OlderStampsFirst` | falconlink/include/net/cache.hpp:20-26 | with a clock that never goes back, timestamps grow from header to tailer |
| `Caches.Cache.constructor` | falconlink/net/cache.cpp:49-55 | an empty, well-formed cache |
| `Caches.Cache.RemoveFromList` | falconlink/net/cache.cpp:116-122 | the list is the old one without that node, linked both ways |
| `Caches.Cache.AppendToTail` | falconlink/net/cache.cpp:124-131 | the list is the old one with the node before the tailer, linked both ways |
| `Caches.Cache.TryLoad` | falconlink/net/cache.cpp:61-74 | hit or miss as the plain sequence says, the entry's bytes appended, the entry moved to the back; list, map and counter stay in step |
| `Caches.Cache.EvictOne` | falconlink/net/cache.cpp:106-114 | removes the least recently used entry from list, map and counter; the map lookup never fails |
| `Caches.Cache.MakeRoom` | falconlink/net/cache.cpp:89-91 | the eviction loop ends, leaves what `Evicted` says, and the size fits |
| `Caches.Cache.TryInsert` | falconlink/net/cache.cpp:76-97 | succeeds if and only if the name is not resident and the bytes are at most the capacity, and the new entry is then the last; evicts and appends as the plain sequence does, occupancy equal to the residents' total and at most the capacity |
| `Caches.Cache.ClearAll` | falconlink/net/cache.cpp:99-104 | an empty, well-formed cache again |
| `Caches.Cache.RunCalls` | falconlink/net/cache.cpp:49-131 | after any sequence of calls the heap structure stands for `Lru.Run` of those calls |
| `Sites.CgiAlwaysParses` | falconlink/http/cgier.cpp:20-31 | the 400 answer for an invalid CGI request is never given |
| `Sites.StatusOfAnswer` | examples/http_server/http_server.cpp:45-108 | 400 exactly for a request that does not parse, 404 exactly for a missing file or program, 200 otherwise; the connection is kept exactly after a 200 whose request has a header that says `Connection` and `Keep-Alive`, in any case and with any blanks around them |
| `Sites.CgiRoundTrip` | falconlink/http/cgier.cpp:20-31 | a program path, with any `&` in it standing before its first `cgi-bin`, and arguments joined to it by `&` are read back, less one empty last argument |
| `Sites.CgiArguments` | falconlink/http/cgier.cpp:20-31 | for every CGI path: the arguments are the tokens after the first `&` at or after `cgi-bin`, and the program is what stands before it, if and only if there is such an `&`; otherwise the program is the whole path and the arguments are its tokens |
| `Sites.CgiWithoutArguments` | falconlink/http/cgier.cpp:24-30 | with no `&` in the path the program is given its own path as its only argument |
| `Sites.CgiSplitsDirectory` | falconlink/http/cgier.cpp:24-30 | with one `&` in the path, before `cgi-bin`, the program is given its own path cut in two |
| `Sites.ServeInPieces` | examples/http_server/http_server.cpp:41-116 | serving the input in two pieces is serving it whole |
| `Sites.OneReplyPerFrame` | examples/http_server/http_server.cpp:41-121 | one reply per complete frame, in order, up to and including the first that closes; if none closes every frame is answered and no frame is left |
| `Sites.FramesOfHeads` | falconlink/common/buffer.cpp:30-40 | requests printed one after the other come out of the stream as they went in |
| `Sites.FramesWellFormed` | falconlink/http/request.cpp:21-32 | no frame of any stream is refused for its format |
| `Sites.CloseIsAnnounced` | falconlink/http/response.cpp:39-41 | every reply has one Connection field; it is `Connection: Close` if and only if the server closes after the reply, and `Connection: Keep-Alive` if and only if it does not |
| `Sites.RespondPrinted` | examples/http_server/http_server.cpp:45-108 | every reply byte for byte, status line, header lines and body, for each case of the request: 400, 404, the output of the program on the parsed arguments, or the file (none of it for HEAD) |
| `Sites.ContentLengthIsExact` | examples/http_server/http_server.cpp:46-107 | for every request the single Content-Length of the reply is the number of bytes that follow its head, CGI output after HEAD included; only for HEAD on a file is it the length of the file with no byte following |
| `Sites.RepliesAreFramed` | examples/http_server/http_server.cpp:46-107 | a client that expects no body after HEAD and else the bytes of the single Content-Length is right about a reply if and only if the request is not a HEAD for which a CGI program runs and prints something |
| `Sites.ClientReadsReply` | examples/http_server/http_server.cpp:46-107 | a client following section 6.3 of RFC 9112 reads the reply and finds the next one, under exactly that condition on the request |
| `Sites.HeadCgiMisread` | examples/http_server/http_server.cpp:68-76 | otherwise it gets an empty body and takes the program's output for the start of the next reply |
| `Sites.ClientReadsStream` | examples/http_server/http_server.cpp:41-121 | for any pipelined input the client reads back every reply at full length, in order, with nothing left, if and only if none of the requests answered is such a HEAD |
| `Handlers.CallKeepsFaithful` | examples/http_server/http_server.cpp:91-101 | loads, insertions of a file's own bytes and clearing keep every cache entry equal to its file |
| `Handlers.HttpServer.FileBody` | examples/http_server/http_server.cpp:90-102 | the bytes are those of the file whether they come from the cache or from disk; the cache is loaded from, or offered what was read |
| `Handlers.AskedIsMostRecent` | examples/http_server/http_server.cpp:90-102 | after a GET on a file that is cached or fits, the file with its bytes is the most recent cache entry; else the cache is as before |
| `Handlers.HttpServer.Answer` | examples/http_server/http_server.cpp:45-108 | the bytes queued and the decision to close are those of a server that reads the file each time |
| `Handlers.HttpServer.ProcessHttpRequest` | examples/http_server/http_server.cpp:30-122 | one handler call, for any reads and writes: bytes sent, bytes left unread, fate of the connection and whether a write failed are those of `AfterCall` on the inputs; the connection is stalled only if the write results run out |
| `Handlers.HttpServer.HandleRounds` | examples/http_server/http_server.cpp:30-122 | all calls on a connection, for any reads and writes: the outcome is `AfterRounds` of the inputs, and what `Handled` says of it |
| `Handlers.FlowedPrefix` | falconlink/net/connection.cpp:102-121 | with no hard failure a prefix of the replies goes out, all of them unless stalled, and strictly less with every result used up if stalled |
| `Handlers.RoundsServeAll` | examples/http_server/http_server.cpp:30-122 | without a hard failure the bytes sent are a prefix of what the input heard before the peer left calls for, strictly shorter if and only if a write is stalled; the connection is deleted exactly when a reply closes or the peer left |
| `Handlers.EnoughNeverStalls` | falconlink/net/connection.cpp:102-121 | with no hard failure and room enough in the results every reply goes out whole |
| `Handlers.OneResultEach` | falconlink/net/connection.cpp:102-121 | one result for each reply, each with room for all of them, is room enough |
| `Handlers.RoundsNeverStall` | examples/http_server/http_server.cpp:30-122 | with room enough in every event nothing is stalled and no write fails, so the outcome depends on the input alone |
| `Handlers.DroppedExactly` | examples/http_server/http_server.cpp:34-43 | what is heard before the peer leaves calls for the same bytes as everything taken off the socket, if and only if no complete request is left after the last bytes or the connection was closed before |
| `Handlers.AllAnsweredExactly` | examples/http_server/http_server.cpp:30-122 | after all calls on a connection every complete request taken off the socket has been answered, under exactly that condition |
| `Interleaving.CacheIsInvisible` | examples/http_server/http_server.cpp:30-122 | in every interleaving of any number of connections over one cache, with peers leaving, writes coming up short, stalling and failing: until a write fails each connection has been sent a prefix of what a server without a cache sends for its input, and all of it when idle or deleted; closed by an answer exactly when that server closes it |
| `Interleaving.CanFinish` | examples/http_server/http_server.cpp:41-121 | from every reachable state every connection can be driven to the end of its work by its own steps alone, and has then been sent all that is due |
| `Interleaving.NewcomerIsServed` | examples/http_server/http_server.cpp:30-122 | at any time a new connection can send any input and be served all of it |
| `Interleaving.CacheIsRun` | falconlink/net/cache.cpp:61-104 | the shared cache is at all times what some run of calls makes of an empty one, so all that holds of runs holds of it |
| `Interleaving.CachedIsNotReread` | examples/http_server/http_server.cpp:93-94 | in every run a cached file is answered from the cache, and is then its most recent entry |
| `Interleaving.MissedIsCached` | examples/http_server/http_server.cpp:95-101 | in every run a file that is not cached is read and answered, and is the most recent entry then, unless it exceeds the capacity |
| `Delivery.PrintedIsUnderstood` | falconlink/http/request.cpp:59-90 | a printed GET or HEAD with an encoded name parses to that request and decodes to the name |
| `Delivery.PrintedCgiRuns` | examples/http_server/http_server.cpp:52-76 | a printed request for a program and its arguments is answered with what the program prints on those arguments |
| `Delivery.LastGetIsDropped` | examples/http_server/http_server.cpp:34-39 | a GET that comes in one read with the peer's close is taken off the socket and not answered |
| `Delivery.PrintedHeadIsMisread` | examples/http_server/http_server.cpp:68-76 | a printed HEAD for any CGI program that prints something leaves the output in the stream as if it began the next reply |
| `Delivery.MisreadHappens` | examples/http_server/http_server.cpp:68-76 | exhibits such a site and request |
| `Delivery.PipelinedGetsDeliverFiles` | examples/http_server/http_server.cpp:30-122 | for any list of served file names, encoding, pipelining, serving and reading back delivers exactly the files' contents, in order, with nothing left over and the connection open |
| `Delivery.FetchFiles` | examples/http_server/http_server.cpp:30-122 | the same from the running server, with its cache in any state, the requests cut into reads anywhere and any short writes: whenever the write results have room enough for the replies the client ends with exactly the files' contents, and the connection is gone only if the peer left |
| `Reactor.ReadyPointersAreLive` | falconlink/net/event_loop.cpp:11-18 | in every run each pointer in a ready list, and the one being handled, is a live connection of that loop |
| `Reactor.OneLoopPerDescriptor` | falconlink/net/acceptor.cpp:40-44 | in every run an open descriptor is in the map of at most one loop |
| `Reactor.InsertNeverCollides` | falconlink/net/event_loop.cpp:25-30 | in every run a registered connection can be inserted, the map has no entry under its descriptor, and has one after |
| `Reactor.EveryPolledIsHandled` | falconlink/net/event_loop.cpp:11-18 | in every run each pointer that was polled has had its handler started, once and in order, or still waits in the ready list |
| `Reactor.DeleteAlwaysFinds` | falconlink/net/event_loop.cpp:32-40 | in every run a handler's delete destroys its own connection and no other |
| `Reactor.DeleteWaitsForLockOnly` | falconlink/net/event_loop.cpp:25-40 | in every run a running handler can delete its connection if and only if the acceptor does not hold the mutex of its loop |
| `Reactor.HandlerBeforeInsert` | falconlink/net/event_loop.cpp:25-30 | the event can come before the insertion; the mutex then holds the delete back |
| `ThreadPool.TakenInOrderOnce` | falconlink/common/thread_pool.cpp:11-23 | in every run tasks leave the queue in order, each to one worker, and none runs twice |
| `ThreadPool.PoolSize` | falconlink/common/thread_pool.cpp:7-8 | in every run the pool has as many workers as asked for, and two at least |
| `ThreadPool.AllRanExactly` | falconlink/common/thread_pool.cpp:7-36 | when all workers have returned, every accepted task has run exactly once if and only if no step of the run queues a task after the last return of a worker |
| `ThreadPool.AllRanWithoutOverlap` | falconlink/include/common/thread_pool.hpp:50-68 | if no `addTask` overlaps the destructor, every accepted task has run exactly once |
| `ThreadPool.OverlapLosesTask` | falconlink/include/common/thread_pool.hpp:55-64 | with an overlap a task can be accepted and stay queued with no worker left, even while no task has ended |
| `ThreadPool.TaskRuns` | falconlink/common/thread_pool.cpp:7-36 | without an overlap: a run that adds a task, runs it, stops and ends |
| `ThreadPool.QueuedLoopHasWorker` | falconlink/include/net/server.hpp:40-47 | while no reactor has quit, the pool stopping or not, some worker can take a queued reactor loop, unless its `addTask` overlapped the destructor and a worker has returned |
| `ThreadPool.LoopsAndWorkersMatch` | falconlink/include/net/server.hpp:40-47 | once all are taken and while none has quit, the pool stopping or not, workers and reactor loops are in bijection |
| `Logger.LogsConserved` | falconlink/common/logger.cpp:115-156 | in every interleaving logs written, in hand and queued spell out exactly the pushes in lock order |
| `Logger.WrittenAtExit` | falconlink/common/logger.cpp:135-156 | when the writer has returned it has written exactly the logs pushed before it last held the lock |
| `Logger.FlushedExactly` | falconlink/common/logger.cpp:142-154 | all logs are written at exit if and only if no step of the run pushes one after the writer last looked at the queue |
| `Logger.ReturnsWhenDone` | falconlink/common/logger.cpp:135-156 | the writer returns at its first read of `done_` after it was set and at no other: every read before sends it back to the lock |
| `Logger.LateLogIsLost` | falconlink/common/logger.cpp:144-154 | a run in which a log pushed before the destructor sets `done_` stays in the queue for good |
| `Brackets.BalancedExactly` | build_support/cpplint.py:1744-1819 | the plain matcher accepts exactly the texts of the grammar of balanced brackets of three kinds |
| `Brackets.PairExactly` | build_support/cpplint.py:1744-1819 | a pair is exactly such a text between an opening bracket and the closing one of its kind |
| `Scanner.PythonRulesSound` | build_support/cpplint.py:1888-1896 | what the code's regular expressions match next to a `>` is never a bracket |
| `Scanner.FindEndOfExpressionInLine` | build_support/cpplint.py:1744-1819 | from a stack resting on a bracket the result is that of a plain three-kind matcher: same end, same failure, or a stack with the same brackets, whatever angles and semicolons do |
| `Scanner.FindStartOfExpressionInLine` | build_support/cpplint.py:1866-1940 | the same for the backward scanner and the mirrored line |
| `Expressions.CloseExpression` | build_support/cpplint.py:1822-1863 | started on a bracket, it returns the place just past its partner, over any number of lines, or tells that it has none |
| `Expressions.ReverseCloseExpression` | build_support/cpplint.py:1943-1978 | started on a closing bracket, it returns its partner, or tells that it has none |
| `Expressions.SearchesInverse` | build_support/cpplint.py:1822-1978 | one search answers the closer for the opener if and only if the other answers that opener for that closer |
| `Expressions.ThereAndBack` | build_support/cpplint.py:1822-1978 | running one after the other returns to the start whenever a partner exists |
| `Expressions.GetTextInside` | build_support/cpplint.py:4891-4921 | returns exactly the text up to the partner of the bracket that ends the match of the start pattern, `None` exactly when there is no match or no partner |
| `Templates.GroupForward` | build_support/cpplint.py:1744-1819 | in a line without operators the forward scanner finds the end of any balanced group of the four kinds, `<` and `>` counting as brackets |
| `Templates.GroupBackward` | build_support/cpplint.py:1866-1940 | and the backward scanner its start |
| `Templates.CloseTemplate` | build_support/cpplint.py:1822-1863 | from the `<` of a template argument list in one line the search finds the place past its `>` |
| `Templates.ReverseCloseTemplate` | build_support/cpplint.py:1943-1978 | and from that `>` the other search finds the `<` |
| `Templates.SemicolonGivesUp` | build_support/cpplint.py:1808-1816 | a `<` that meets a `;` before it is closed is given up |
| `Nesting.NestingState.UpdatePreprocessor` | build_support/cpplint.py:2757-2811 | checkpoints saved, restored and dropped as `Preprocess` says, stray directives ignored |
| `Nesting.NestingState.CountParentheses` | build_support/cpplint.py:2838-2859 | parentheses and inline assembly state of the innermost block |
| `Nesting.NestingState.ConsumeTokens` | build_support/cpplint.py:2939-2976 | the brace loop computes `AllTokens` |
| `Nesting.NestingState.Update` | build_support/cpplint.py:2814-2976 | one line: directive, then everything else, as `Updated` says |
| `Nesting.NestingState.UpdateAll` | build_support/cpplint.py:2814-2976 | over all lines of a file the object runs as `Exec` says; with nested conditionals only their first branches leave a trace and the checkpoints are as before |
| `Nesting.OnlyFirstBranches` | build_support/cpplint.py:2757-2811 | after any lines with properly nested conditionals, of any depth and with any number of branches, the stack is what the lines of the first branches alone produce, and `pp_stack` is as before |
| `Nesting.ConditionalsAreFirstBranches` | build_support/cpplint.py:2757-2911 | with quiet directive lines, and from any stack a run can reach, it is what the ordinary lines of the first branches alone produce, if and only if such a line comes last or the last of them did not just end inline assembly, and every class that a bare colon in a directive marks as derived is gone or derived anyway |
| `Nesting.NoColonNoMark` | build_support/cpplint.py:2905-2911 | directives without a bare colon mark no class |
| `Nesting.CalmIsNotSeen` | build_support/cpplint.py:2846-2853 | after inline assembly has ended, the next line does the same whether or not a quiet line came between |
| `Nesting.RunsKeepAsm` | build_support/cpplint.py:2840-2859 | in every run a block inside inline assembly has a parenthesis open, on the stack and in every checkpoint |
| `Nesting.EndifLeavesTrace` | build_support/cpplint.py:2846-2853 | a file read by a new object where inline assembly ends just before `#endif` and that equality fails |
| `Nesting.ColonLeavesMark` | build_support/cpplint.py:2527-2530 | a file read by a new object where an `#if` with a bare colon after a class head makes the class look derived |
| `Nesting.QuietLineKeeps` | build_support/cpplint.py:2840-2911 | a directive line with no brace, semicolon, parenthesis, declaration or label leaves the stack alone if and only if the innermost block is not at the end of inline assembly, and is not a class head waiting for its brace and marked as derived by a bare colon of the line |
| `Nesting.BalancedBracesKeep` | build_support/cpplint.py:2939-2976 | balanced braces leave a stack with no pending head as it was |
| `Nesting.BracedBodyPops` | build_support/cpplint.py:2946-2975 | a braced body takes the pending class or namespace head off with it |
| `Nesting.EachItemTakesHead` | build_support/cpplint.py:2939-2976 | from any stack, every `;`, `)` and braced body of a balanced text takes one pending head off the stack and nothing else is changed |
| `Nesting.ForwardDeclarationGone` | build_support/cpplint.py:2886-2976 | a class head followed by `;` or `)` before any brace leaves what the line would leave without the class |
| `Nesting.ClassFooGone` | build_support/cpplint.py:2886-2976 | `class Foo;` on an empty stack leaves it empty |
| `Nesting.ClassOpens` | build_support/cpplint.py:2886-2911 | a class opens private and a struct public, derived exactly with a bare colon in the head |
| `Nesting.ClassIgnored` | build_support/cpplint.py:2894-2903 | inside parentheses and template arguments the word is no class head |
| `Nesting.NamespaceOpens` | build_support/cpplint.py:2865-2876 | a namespace is open whether its brace stands on its line or on the next |
| `Nesting.LabelSetsAccess` | build_support/cpplint.py:2913-2921 | an access label sets the access of the innermost block if that is a class and does nothing else |
| `Nesting.BlockOpens` | build_support/cpplint.py:2946-2958 | any other brace opens a block, of C linkage or of assembly if the line says so |
| `Nesting.AsmFollowsParens` | build_support/cpplint.py:2840-2859 | when the innermost block enters, leaves and forgets inline assembly |
| `Nesting.StrayIsOrdinary` | build_support/cpplint.py:2757-2811 | a `#else`, `#elif` or `#endif` outside any conditional is read as an ordinary line |

## Left out

- Sockets, epoll, `fork`/`execve`, file access and clocks: only their results are inputs. `epoll_ctl` is taken to succeed and requested paths to be regular files.
- Concurrent threads inside `Cache`: `tryLoad` relinks nodes under a shared lock and `clear` takes none, so the list properties are for calls taken one at a time; `Interleaving` lets other connections move between any two calls.
- Termination: neither pool shutdown nor a write that keeps meeting EAGAIN is shown to end; wake-ups of condition variables are not modelled.
- `Cgier::run`, its temporary file and its argument arrays: the output of a program is a fixed text per path and argument list.
- `Buffer::appendFront`: only its unit test calls it.
- `Make503Response`, the request constructor from parts and the stream output operators: never used by the server or only printing.
- Undefined behaviour of `toupper` and `isalnum` on negative `char` values: taken as the C locale tables of the common libraries give it.
- The `<` and `>` starts of the two expression searches: the inverse property is claimed for template arguments in one line without operators (`Templates`), not for every line, since the heuristics are not symmetric.
- The remaining checks of the linter, its option parsing and file discovery: many independent branches. `previous_stack_top` and the fields of a class that only error messages read are not modelled.
- Memory reuse inside `std::unordered_map` and `std::vector`, and `reserve`: no effect on what is computed.
- `InetAddr`, `Socket`, exceptions, macros, the clang runner scripts, JavaScript, HTML and CMake files: plumbing, user interface or data.
