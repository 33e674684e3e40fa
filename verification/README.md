# The HTTP engine's protocols and codecs, and the ping checksum

This project models the parts of `lesson7/server/httplib.h` that carry bytes through state — the
multipart/form-data parser and printer, chunked transfer coding over buffered sockets, the thread
pool, the client's request/stop protocol, redirects, and the text codecs — and the ICMP checksum of
`lesson1/ping/main.cpp`. `dafny verify dfyconfig.toml` checks everything.

How the model is laid out:

- Code that updates state in place is a class or a loop: `MultipartFormDataParser`, `SocketStream`,
  `StreamLineReader`, `ChunkSink`, `PingPacket`, and the codecs' accumulator loops. Each method's
  contract equates its new state with a function on values; the theorems are about those functions.
- Concurrency is a step system: `ThreadPool` and `ClientProtocol` give the state, the steps any thread
  may take under the locks, and theorems over every reachable state, for every interleaving.
- A socket is the byte sequence still to arrive and the byte sequence already sent. Receives and sends
  may be short in any way and, unless the socket is called reliable, may fail at any time.
- User callbacks are functions of everything they have been given so far, so a theorem about all
  callbacks covers stateful ones. The remote server of `Redirects` is any function from exchange number
  to reply; a content provider is any list of calls on its sink.

| file | part of the program |
|---|---|
| `Text.dfy`, `Splitting.dfy` | `buf_find` as first occurrence, limits, character classes; `trim`, `split` |
| `Multipart.dfy` | parser on values, the in-place class, the client's printer |
| `MultipartLaws.dfy` | conservation of bytes, split against whole parsing |
| `MultipartRoundTrip.dfy` | delivered items; cuts inside a body |
| `MultipartHeaders.dfy`, `MultipartPattern.dfy` | the header lines of an item, in any spelling; the pattern for the disposition |
| `MultipartPrinting.dfy` | bodies any client may write and bodies Post prints, parsed in one call |
| `MultipartPieces.dfy` | the same bodies in any pieces |
| `MultipartRefusals.dfy` | callbacks that refuse, wrong beginnings and ends, input behind the end |
| `Streams.dfy`, `Chunked.dfy`, `ChunkedWriting.dfy` | sockets, buffered reading, lines, chunked coding |
| `ThreadPool.dfy`, `ClientProtocol.dfy`, `Redirects.dfy` | worker pool, `send` against `stop`, nested sends |
| `UrlCodec.dfy`, `Multimap.dfy`, `Query.dfy` | percent-encoding, multimaps, query strings |
| `RequestLines.dfy`, `MessageHead.dfy` | request lines, header fields |
| `Base64.dfy`, `Ranges.dfy`, `RangeHeaders.dfy` | base64; ranges printed, resolved and served; what any Range header means |
| `Powers.dfy` | powers of two, for shifts and for counting nested sends |
| `Checksum.dfy` | the Internet checksum and the echo packet |

## Where the code does not keep its promise

Each of these is a lemma with the failing input, or the exact condition under which the promise holds.

- A multipart body cut shortly after a delimiter has begun to arrive can lose it: with one, two or three
  of its bytes in a window of four or more, the parser hands those bytes to the content callback and
  never sees the delimiter. Once CR LF "--" has arrived the rest is kept back, unless an earlier CR LF
  "--" in the content swallows it. `MultipartRoundTrip.CutInBody` gives the exact condition on the
  window and the input to come, `MultipartRoundTrip.PlainCut` says which cuts these are when no CR LF
  "--" stands before the delimiter, `MultipartPieces.PrintedBodyInPieces` extends it to any number of
  pieces, and `MultipartPrinting.CutAfterLineEndLosesDelimiter` is a family of inputs.
- Every call of the multipart parser measures the first header line it finds, and no other. So whether
  header lines are too long depends on where the calls end: a cut is harmless if and only if, when no
  line of the section is complete yet, at most 8192 bytes have arrived, and otherwise the line that is
  cut has at most 8192 bytes as a whole (`MultipartPieces.CutInHeaders`). A first line of exactly 8192
  bytes is refused when its call ends between its CR and its LF (`MultipartPieces.LimitLineCut`); a later
  line that is longer is accepted in one call and refused when a call ends inside it or right before it.
- Input behind the line that closes a multipart body, an epilogue for instance, makes the call return false
  and the body invalid, although every item has been delivered (`MultipartRefusals.EpilogueIsRefused`);
  anything but CR LF or "--" CR LF behind a delimiter is not refused at all: every call returns true, no
  callback is made and the body never becomes valid (`MultipartRefusals.WrongEndIsIgnored`).
- The chunked writer takes a provider call that ends in an empty write for the end of the data, reports
  success and sends no end marker. So a body that the provider ends with done reaches the reader if and only
  if no provider call but the last ends in an empty write (`ChunkedWriting.ChunkedRoundTrip`).
- The chunked reader refuses trailer fields behind the last chunk (`ChunkedWriting.TrailersAreRefused`).
- A chunked body whose connection dies between the CR and the LF behind a chunk is reported as complete
  (`ChunkedWriting.TruncatedEncoding`: exactly there). A wrong chunk end is reported as an error if and
  only if nothing at all follows the payload (`ChunkedWriting.WrongChunkEnd`).
- `ThreadPool(0)` accepts jobs, shuts down and drops them (`ThreadPool.EmptyPoolDropsJobs`); in no run of
  it does a job start (`ThreadPool.EmptyPoolRunsNothing`).
- A request whose credentials are refused as often as they are tried succeeds, with the last challenge as its
  response (`Redirects.ChallengesEnd`).
- A redirect or authentication retry forgets an earlier `stop` (`ClientProtocol.NestedSendForgetsStop`).
- `parse_query_text` drops repeated pairs although the container is a multimap (`Query.QueryRoundTrip`).
- `params_to_query_str` prints keys as they are. A pair comes back if and only if its key is not empty,
  has no blank at its edges, holds no `&`, `=` or `+` and no escape (`Query.KeySurvives`). Blanks at the
  edges are lost, a `+` or an escape is decoded, an empty or blank key gives way to the value
  (`Query.KeyIsDecoded`), a `&` or `=` cuts the key (`Query.KeyWithAmpersand`, `Query.KeyWithEquals`).
- A request target sent without `encode_url` must not hold a blank or a newline: the server reads one
  line and splits it at blanks (`RequestLines.NewlineCutsLine`).
- `read_headers` drops a header whose value is empty or blank and trims the others
  (`MessageHead.HeadRoundTrip`).
- `read_headers` percent-decodes header values (`MessageHead.HeadRoundTrip`), and `encode_url` leaves
  `%` alone, so a path or value survives exactly when it holds no escape.
- A range whose last position lies past the content is not cut to size, so `Content-Range` announces
  bytes that are not there (`Ranges.ResolvedRange`, `Ranges.LastPositionIsNotClamped`); the bytes sent
  are right all the same (`Ranges.ServedIsSelected`).
- The checksum of a buffer of odd length is the one of the buffer padded with a zero byte if and only if the
  host is little-endian or the last byte is zero (`Checksum.OddByteIsPadded`).
- `PingPacket::operator bool` rejects the other representation of zero, which a receiver following
  RFC 1071 accepts (`Checksum.StricterThanReceiverCheck`, `Checksum.NegativeZeroIsRejected`).

## Model

| member | source | states |
|---|---|---|
| Multipart.MultipartFormDataParser.BufFind | lesson7/server/httplib.h:3945-3966 | the position returned is the first occurrence of the pattern in the window, or the window's size when there is none |
| Multipart.MultipartFormDataParser.StartWith | lesson7/server/httplib.h:3926-3943 | true exactly when the pattern is a prefix of the window |
| Multipart.MultipartFormDataParser.ShiftToFront | lesson7/server/httplib.h:3969-3976 | the overlapping left shift keeps every byte of the window, now at the front of the buffer |
| Multipart.MultipartFormDataParser.BufAppend | lesson7/server/httplib.h:3968-3984 | the window afterwards is the old window followed by the data, and stays inside the buffer |
| Multipart.MultipartFormDataParser.BufErase | lesson7/server/httplib.h:3986 | the window loses exactly its first bytes |
| Multipart.MultipartFormDataParser.ReadHeaderLines | lesson7/server/httplib.h:3807-3834 | the in-place header loop does what the recursive reading of header lines does, a refused header callback included |
| Multipart.MultipartFormDataParser.Parse | lesson7/server/httplib.h:3776-3901 | one call of parse: state, validity, file, window, return value and callbacks are those of the six-state machine, and the loop terminates |
| Multipart.TakeTurn | lesson7/server/httplib.h:3789-3898 | a pass that goes round again consumes input or moves from state 1 to 2; a pass that returns leaves the state as it was |
| Multipart.Post | lesson7/server/httplib.h:6702-6732 | a body is built exactly when the boundary uses letters, digits, '-' and '_'; it is the printed form of the items |
| MultipartLaws.FeedAccounts | lesson7/server/httplib.h:3776-3901 | for every segmentation of the input and accepting callbacks, the bytes fed are the delivered content interleaved in order with erased delimiters and header lines, followed by the unread window |
| MultipartLaws.SplitAgreesWithWhole | lesson7/server/httplib.h:3789-3900 | when parse(a) and parse(b) succeed and the first stops outside state 3, parse(a+b) makes the same calls and ends in the same machine |
| MultipartLaws.NoDelimiterStaysInBody | lesson7/server/httplib.h:3837-3874 | without the delimiter in its window, a parser in the body state stays there |
| MultipartLaws.DelimiterAfterCandidate | lesson7/server/httplib.h:3838-3855 | discarding up to the first CR LF "--" never skips the delimiter |
| MultipartRoundTrip.BodyFound | lesson7/server/httplib.h:3837-3874 | a window holding the delimiter finishes the item in one pass: its content is everything before the first delimiter, whatever CR LF "--" occur before it |
| MultipartRoundTrip.BodyNotFound | lesson7/server/httplib.h:3837-3874 | a window without the delimiter is delivered up to a point given by the window and the boundary alone, and the rest kept, nothing lost |
| MultipartRoundTrip.RunIgnoresHistory | lesson7/server/httplib.h:3776-3901 | what parsing delivers depends only on the machine and the items so far, not on how they came in |
| MultipartRoundTrip.CutInBody | lesson7/server/httplib.h:3837-3874 | cutting inside a body delivers the same items if and only if the bytes handed on from the window so far, a function of window and boundary, end at or before the first delimiter of the whole input |
| MultipartRoundTrip.PlainCut | lesson7/server/httplib.h:3837-3874 | where no CR LF "--" stands before the delimiter, a cut loses it if and only if the window has four bytes or more and its last one, two or three belong to the delimiter |
| MultipartHeaders.DispositionReads | lesson7/server/httplib.h:3780-3782 | the pattern captures name and filename from a disposition line in any case, with any white space between its parts and any filename* behind them |
| MultipartHeaders.OtherHeader | lesson7/server/httplib.h:3816-3829 | a line that begins with neither name, in any case, leaves the item as it is |
| MultipartHeaders.DescribedItem | lesson7/server/httplib.h:3804-3836 | lines in any order, a disposition, a content type if the item has one, and any number of others before, between or behind them, give the item |
| MultipartHeaders.HeaderSectionReads | lesson7/server/httplib.h:3804-3836 | the header callback gets the item such lines describe and its answer decides; a first line over 8192 bytes is refused before anything is read |
| MultipartPattern.PatternMeans | lesson7/server/httplib.h:3780-3782 | the pattern matches exactly the lines that are its front and hold a quote that can close the name; the first such quote does |
| MultipartPattern.ShortestFilename | lesson7/server/httplib.h:3780-3782 | the filename ends at the first quote that an ending follows, if there is one before the line ends |
| MultipartPattern.EndingMeans | lesson7/server/httplib.h:3780-3782 | an ending is white space, or a filename* of one word and white space, and nothing else |
| MultipartPattern.UnmatchedLine | lesson7/server/httplib.h:3826-3829 | a disposition line that the pattern does not match changes nothing |
| MultipartPrinting.DispositionMatches | lesson7/server/httplib.h:3780-3782 | the pattern, matched with its backtracking order, captures exactly the printed name and filename |
| MultipartPrinting.DelimiterEndsContent | lesson7/server/httplib.h:3852-3863 | the delimiter overlaps no shifted copy of itself: behind any content it is found at the content's end unless the content holds one |
| MultipartPrinting.WrittenBodyParses | lesson7/server/httplib.h:3776-3901 | one parse call on a body whose header lines are written in any spelling and order, among any others, gives exactly the items, valid and used up, if and only if there is an item and no content holds the delimiter |
| MultipartPrinting.PrintedBodyParses | lesson7/server/httplib.h:6702-6732 | parsing what Post printed gives exactly the items in order, ends in state 5, valid and with an empty window, if and only if there is an item and no content holds the delimiter |
| MultipartPrinting.CutAfterLineEndLosesDelimiter | lesson7/server/httplib.h:3837-3874 | inputs for which one call completes the body and two calls never do |
| MultipartPieces.CutInHeaders | lesson7/server/httplib.h:3804-3836 | a header section cut before its empty line goes on as if nothing had been cut if and only if the cut is harmless, a condition on the window and the input to come; otherwise this call or the next returns false |
| MultipartPieces.FeedInPieces | lesson7/server/httplib.h:3776-3901 | input that leads to the end in one call does so in any pieces whose cuts are all harmless, every call returning true and the items and the machine being the same; otherwise a call returns false or the items differ |
| MultipartPieces.WrittenBodyInPieces | lesson7/server/httplib.h:3776-3901 | the same for such a body in any pieces: the items come back, every call returning true, if and only if no cut is harmful |
| MultipartPieces.ClearCutsKeepParts | lesson7/server/httplib.h:3776-3901 | when no header line of such a body reaches the limit, no content holds CR LF "--" and no piece ends one to three bytes behind the start of a delimiter, every item comes back |
| MultipartPieces.PrintedBodyInPieces | lesson7/server/httplib.h:6702-6732 | feeding what Post printed in any pieces gives exactly the items, every call returning true, valid and used up, if and only if no cut between pieces is harmful in a header section or in a body |
| MultipartPieces.ClearCutsKeepItems | lesson7/server/httplib.h:6702-6732 | when no header line reaches the limit, no content holds CR LF "--" and no piece ends one to three bytes behind the start of a delimiter, every item comes back |
| MultipartPieces.LimitLineCut | lesson7/server/httplib.h:3805-3806 | a first line of exactly 8192 bytes is refused when the call that starts it ends between its CR and its LF, and accepted when both arrive together |
| MultipartRefusals.RefusalStops | lesson7/server/httplib.h:3776-3901 | whatever the callbacks answer and to whichever event: a call without a refusal is the one with callbacks that agree; with one, it does what that one does up to the first refusal and nothing behind it, returns false and leaves the body invalid |
| MultipartRefusals.TailIsRefused | lesson7/server/httplib.h:3876-3896 | input behind the closing line makes the call return false and the body invalid, and changes nothing else |
| MultipartRefusals.EpilogueIsRefused | lesson7/server/httplib.h:3876-3896 | so it is for every written body with an epilogue, its items delivered all the same |
| MultipartRefusals.CutShortIsInvalid | lesson7/server/httplib.h:3776-3901 | a written body cut short anywhere is not valid |
| MultipartRefusals.WrongStartIsRefused | lesson7/server/httplib.h:3791-3798 | a body that does not begin with its delimiter line, in whatever pieces: no callback is made and the last call returns false |
| MultipartRefusals.WrongEndIsIgnored | lesson7/server/httplib.h:3876-3893 | behind a delimiter, input that begins with neither CR LF nor "--" CR LF is kept without a callback, every call returning true |
| Streams.SocketStream.Read | lesson7/server/httplib.h:4641-4685 | bytes delivered followed by what is left (buffer and socket) are what was left before, for any size and any short receive; zero only for a zero size or at the end of the stream |
| Streams.SocketStream.Write | lesson7/server/httplib.h:4687-4696 | what is sent is a prefix of the data of the length returned |
| Streams.StreamLineReader.Append | lesson7/server/httplib.h:2213-2224 | the line grows by the byte, whichever buffer holds it, and stays NUL-terminated |
| Streams.StreamLineReader.GetLine | lesson7/server/httplib.h:2187-2211 | on success the line is everything up to and including the next newline or to the end of the stream, terminated, for every fixed buffer of two bytes or more; line and remaining bytes are always what was ahead |
| Chunked.ReadContentWithLength | lesson7/server/httplib.h:3292-3312 | deliveries tile the body without gap or overlap, each with its offset and the announced total; nothing is delivered behind a refusal; success means exactly len bytes were consumed and every delivery was accepted; over a reliable connection failure means that the last delivery was refused or that fewer bytes arrived |
| Chunked.FromIToHex | lesson7/server/httplib.h:1894-1902 | the digit loop gives the base-16 text of the number |
| Chunked.StrtoulOfHex | lesson7/server/httplib.h:3357-3360 | strtoul with base 16 gives back every printed size and stops right behind it |
| Chunked.StrtoulMeans | lesson7/server/httplib.h:3357-3360 | on any text with a number strtoul skips white space, a sign and 0x, stops at the first character that is no digit, saturates a value that does not fit and negates one with a minus sign modulo 2^64 |
| Chunked.ReadChunk | lesson7/server/httplib.h:3362-3372 | one round delivers the chunk and leaves the reader at the next size line, as the decoder on values says; nothing is delivered behind a refusal, and a refusal ends the reading with false |
| Chunked.ReadContentChunked | lesson7/server/httplib.h:3344-3382 | success under any short reads means the payload delivered and the bytes left are the decoder's, and every delivery was accepted; over a reliable connection failures without a refusal agree as well; nothing is delivered behind a refusal; in any case what was delivered is the beginning of the decoder's payload |
| ChunkedWriting.WriteData | lesson7/server/httplib.h:3481-3489 | a prefix of the data is sent under any short sends, all of it on success |
| ChunkedWriting.ChunkSink.Write | lesson7/server/httplib.h:3574-3596 | one chunk per nonempty write, nothing sent for an empty one or after a failure; offset and availability follow |
| ChunkedWriting.ChunkSink.Done | lesson7/server/httplib.h:3598-3626 | the end marker is sent and no more data is available |
| ChunkedWriting.WriteContentChunked | lesson7/server/httplib.h:3565-3643 | what was sent is a prefix of what the provider's calls emit, all of it over a reliable connection, and the result and error are a function of those calls and of how much got through: a failed write is reported as such unless its turn is one the provider cancels |
| ChunkedWriting.OutputIs | lesson7/server/httplib.h:3628-3640 | the loop plays provider calls up to the first that cancels or leaves no data available, or to the shutdown, and sends what all of them emit; it is canceled exactly when that call says so |
| ChunkedWriting.EndingIs | lesson7/server/httplib.h:3628-3640 | when less gets through, a call that cancels is reported as that once everything before it has been sent; any other loss is a failed write |
| ChunkedWriting.ChunkDecodes | lesson7/server/httplib.h:3587-3588 | the decoder reads one printed chunk and goes on behind it |
| ChunkedWriting.EncodedDecodes | lesson7/server/httplib.h:3344-3382 | decoding an encoding delivers the payloads joined and leaves what follows untouched |
| ChunkedWriting.WriterEncodes | lesson7/server/httplib.h:3565-3643 | writes spread over any number of provider calls, empty ones among them but not last in a call that goes round again, then done, emit the encoding of the nonempty payloads |
| ChunkedWriting.ChunkedRoundTrip | lesson7/server/httplib.h:3344-3382 | for such calls decoding what the writer emits delivers the concatenated payloads and leaves every following byte; if another call than the last ends in an empty write, the writer reports success all the same and the decoder fails |
| ChunkedWriting.WireBodyDecodes | lesson7/server/httplib.h:3344-3382 | chunks whose size lines any sender wrote, with leading zeros, capital digits and extensions, are decoded to their payloads, up to a size line of zero and the empty line |
| ChunkedWriting.TrailersAreRefused | lesson7/server/httplib.h:3375-3379 | a trailer field behind the last chunk makes the call fail, every payload delivered |
| ChunkedWriting.HugeChunk | lesson7/server/httplib.h:3357-3360 | a size that does not fit an unsigned long fails at once |
| ChunkedWriting.NoSize | lesson7/server/httplib.h:3357-3360 | so does a size line without a number |
| ChunkedWriting.TruncatedEncoding | lesson7/server/httplib.h:3368-3381 | a proper prefix of an encoding is accepted if and only if it ends between the CR and the LF behind a chunk |
| ChunkedWriting.WrongChunkEnd | lesson7/server/httplib.h:3368-3381 | a chunk followed by anything but an empty line ends the body there, and the call fails if and only if nothing at all follows |
| ThreadPool.QueuedJobsAreNoticed | lesson7/server/httplib.h:546-589 | in every reachable state, while a worker sleeps and shutdown is not set, the queued jobs are at most the workers about to recheck the predicate; a queued job always finds a worker awake |
| ThreadPool.JobsRunOnceInOrder | lesson7/server/httplib.h:546-589 | jobs pushed = jobs started, in order, followed by the queue; each started job is finished or in one worker's hands |
| ThreadPool.ShutdownDrainsQueue | lesson7/server/httplib.h:552-589 | when all workers of a nonempty pool have exited, every job pushed before the flag was set has run; if none came later the queue is empty and all ran |
| ThreadPool.OwnStepsTerminate | lesson7/server/httplib.h:546-589 | before shutdown, every run without pushes and spurious wakeups is bounded by a measure |
| ThreadPool.RestMeansDone | lesson7/server/httplib.h:546-589 | a nonempty pool that can take no such step has an empty queue, all workers asleep and every pushed job run |
| ThreadPool.EmptyPoolRunsNothing | lesson7/server/httplib.h:536-541 | in every reachable state of a pool of no workers no job has started and the queue holds every job pushed |
| ThreadPool.EmptyPoolDropsJobs | lesson7/server/httplib.h:552-565 | such a pool shuts down and joins with its job still queued |
| ThreadPool.NobodySleepsAfterNotifyAll | lesson7/server/httplib.h:559-578 | after notify_all no worker sleeps again |
| ThreadPool.JoinIsNeverStuck | lesson7/server/httplib.h:561-564 | until every worker is joined some step other than a push is enabled |
| ThreadPool.JoinMakesProgress | lesson7/server/httplib.h:561-589 | after notify_all every step but a push lowers a measure |
| ThreadPool.ShutdownTerminates | lesson7/server/httplib.h:552-589 | every run after notify_all without pushes is no longer than the measure |
| ThreadPool.ReachableInv | lesson7/server/httplib.h:534-590 | mutual exclusion, no lost wakeup, conservation of jobs and the order of shutdown hold in every reachable state, spurious wakeups included |
| ClientProtocol.CounterIsNestingDepth | lesson7/server/httplib.h:5979-6012 | in every reachable state the in-flight counter is the owner's active nesting depth, the thread id is set exactly while that is positive, and no assertion has failed |
| ClientProtocol.NobodyClosesUnderAnotherThread | lesson7/server/httplib.h:5877-5894 | a descriptor is closed only by the thread whose requests are in flight, or when none are |
| ClientProtocol.DescriptorsAreConserved | lesson7/server/httplib.h:5943-5958 | every descriptor ever connected is the current one or has been closed exactly once |
| ClientProtocol.StopTakesEffect | lesson7/server/httplib.h:5998-6012 | a request leaves the socket closed if and only if it failed, ends the connection, found it closed already, or stop came after the latest send began |
| ClientProtocol.StopDuringPlainRequest | lesson7/server/httplib.h:6919-6940 | without nested sends, a stop during a request means the socket is closed when the request ends |
| ClientProtocol.PrepareConnects | lesson7/server/httplib.h:5932-5988 | a send takes a living connection over as it is, closes a dead one and connects anew, and goes on exactly when it has a connection; the deferred close is cleared |
| ClientProtocol.ConnectionIsReused | lesson7/server/httplib.h:5932-6012 | while nobody stops the client or ends the connection and no request fails, any number of requests, nested ones included, use the one descriptor |
| ClientProtocol.NestedSendForgetsStop | lesson7/server/httplib.h:5932-5941 | a run in which a nested send clears the flag and the socket is still open after the outer request |
| ClientProtocol.ReachableInv | lesson7/server/httplib.h:5864-6012 | the joint invariant of counter, owner, descriptors and deferred close holds in every reachable state |
| Redirects.Send | lesson7/server/httplib.h:5932-6012 | for every server, nesting is at most the redirects left plus the authorization attempts left, plus one, and the request comes back with no more redirects and the same attempts; the recursion ends |
| Redirects.HandleRequest | lesson7/server/httplib.h:6033-6092 | the same bounds through the redirect and the digest branch, the second on the request the first may have overwritten |
| Redirects.FollowLocation | lesson7/server/httplib.h:6094-6146 | nothing is sent when no redirect is left |
| Redirects.SendTo | lesson7/server/httplib.h:3654-3677 | the count never drops below zero and the nested send is strictly smaller |
| Redirects.DigestRetry | lesson7/server/httplib.h:6062-6089 | a retry after a redirect still stays within the bound of the original request |
| Redirects.DefaultRequestIsBounded | lesson7/server/httplib.h:6033-6092 | from the default counts at most 26 sends are nested, whatever the server answers |
| Redirects.DepthBoundIsReached | lesson7/server/httplib.h:6033-6092 | a server exists that reaches 26 |
| Redirects.RedirectsUnfold | lesson7/server/httplib.h:6094-6146 | redirects are followed one by one; what comes back is the response at their end, or, if that request fails, the first redirect and the request unchanged |
| Redirects.RedirectChain | lesson7/server/httplib.h:3654-3677 | redirects within the limit, then an answer: that answer comes back, one exchange each; the request is for the last location, and from the first 303 on a GET without a body, unless it was GET or HEAD |
| Redirects.RedirectsEnd | lesson7/server/httplib.h:6094-6105 | one redirect more than allowed, or one that leads nowhere, fails the request, and nothing is sent after it |
| Redirects.ChallengesUnfold | lesson7/server/httplib.h:6062-6089 | each challenge is met with one more attempt; the request comes back unchanged, with the last response or, if an attempt fails, the first challenge |
| Redirects.ChallengeChain | lesson7/server/httplib.h:6062-6089 | challenges within the limit of five, then an answer: that answer comes back |
| Redirects.ChallengesEnd | lesson7/server/httplib.h:6063-6064 | one challenge more comes back as the response of a request that succeeded |
| Redirects.FinalAnswer | lesson7/server/httplib.h:6057-6064 | a response that is no redirect, or one in a client that follows none, and no question the client can answer, comes back after one exchange |
| Text.Find | lesson7/server/httplib.h:3945-3966 | the first occurrence, or the length |
| Splitting.Split | lesson7/server/httplib.h:2141-2159 | the callback receives the trimmed nonempty pieces in order |
| Splitting.PieceThenMore | lesson7/server/httplib.h:2141-2159 | splitting a joined text gives its first piece back, then the pieces of the rest |
| Splitting.JoinedPieces | lesson7/server/httplib.h:2141-2159 | splitting any texts joined by a separator gives them trimmed, those that are blank left out |
| Splitting.TrimMeans | lesson7/server/httplib.h:2123-2139 | trimming takes blanks and tabs off both ends and nothing else |
| UrlCodec.EncodeQueryParam | lesson7/server/httplib.h:2017-2036 | the loop computes the encoding that the round trip is about |
| UrlCodec.EncodeUrl | lesson7/server/httplib.h:2038-2068 | the same for paths, stopping at the first NUL; the spelled-out cases are the hexadecimal ones |
| UrlCodec.FromHexToI | lesson7/server/httplib.h:1877-1892 | succeeds exactly when that many hexadecimal digits follow, and reads no further than the terminator |
| UrlCodec.ToUtf8Decodes | lesson7/server/httplib.h:1904-1934 | every scalar value becomes the UTF-8 sequence that a standard decoder reads back, every other code nothing |
| UrlCodec.DecodeUrl | lesson7/server/httplib.h:2070-2105 | the loop computes the decoding, never indexing past the terminator |
| UrlCodec.DecodeReads | lesson7/server/httplib.h:2070-2105 | what decoding gives for every input: the text falls into characters, %XX, %uXXXX and lone percent signs; a character stands for itself, '+' for a blank where it is converted, %XX for its byte, %uXXXX for the UTF-8 sequence that reads back as its code |
| UrlCodec.FormDecodes | lesson7/server/httplib.h:2097-2098 | every byte string comes back from its form encoding, a blank written as '+'; without the conversion its blanks come back as '+' |
| UrlCodec.QueryValueRoundTrip | lesson7/server/httplib.h:2017-2036 | decode_url(encode_query_param(s), true) = s for every byte string |
| UrlCodec.PathDecodes | lesson7/server/httplib.h:2038-2068 | for every NUL-free path, decoding its encoding is decoding the path (with '+' conversion too, if it holds no '+'); the path comes back if and only if it holds no escape |
| UrlCodec.QueryKeeps | lesson7/server/httplib.h:2022-2025 | encode_query_param leaves a text alone if and only if it is made of letters, digits and -_.!~*'() |
| UrlCodec.PathKeeps | lesson7/server/httplib.h:2038-2068 | encode_url leaves a text alone if and only if it is made of ASCII characters other than blank, CR, LF and + ' , ; |
| UrlCodec.DecodeIsIdentity | lesson7/server/httplib.h:2070-2105 | decoding leaves a text as it is if and only if it holds no escape, '+' counting as one where it is converted |
| Query.ParamsToQueryStr | lesson7/server/httplib.h:3679-3689 | the loop prints the pairs with separators between them |
| Query.ParseKeyValue | lesson7/server/httplib.h:3698-3706 | the first piece is the key, the last of the others the value |
| Query.ParseQueryText | lesson7/server/httplib.h:3691-3712 | the loop adds each pair not seen before, decoded, in multimap order |
| Query.ParsedQueryIsSorted | lesson7/server/httplib.h:3691-3712 | whatever the query, its pairs are all there, sorted stably by key behind those already known |
| Query.QueryTextMeans | lesson7/server/httplib.h:3691-3712 | the same for a query given by its parts: blanks and tabs around them do not count, nor do blank ones |
| Query.PairMeans | lesson7/server/httplib.h:3697-3710 | of the parts of one pair the first that is not blank is the key, even behind an equals sign, the last of the others the value; without one there is no pair |
| Query.LessIsStrictWeak | lesson7/server/httplib.h:309 | the order of keys is a strict weak order |
| Query.PairInjective | lesson7/server/httplib.h:3693-3696 | different pairs print differently, so the cache of texts drops only equal pairs |
| Query.QueryRoundTrip | lesson7/server/httplib.h:3679-3712 | parsing printed parameters, as they are or through encode_url, gives them back without later copies of equal pairs, sorted stably by key; a multimap, printed in order, comes back unchanged if and only if its pairs are distinct |
| Query.KeySurvives | lesson7/server/httplib.h:3679-3712 | for every key and value, a single printed pair comes back if and only if its key is nonempty, trimmed, without '&', '=' and '+' and without an escape |
| Query.KeyIsDecoded | lesson7/server/httplib.h:3684-3709 | a key without '&' and '=' is read back trimmed and decoded; an empty or blank one gives way to the value, or the pair vanishes |
| Query.KeyWithEquals | lesson7/server/httplib.h:3684-3706 | a key holding '=' is cut there; its second half is lost, or becomes the value when that is empty |
| Query.KeyWithAmpersand | lesson7/server/httplib.h:3684-3709 | a key holding '&' becomes two keys, the first with an empty value |
| Multimap.EmplaceInOrder | lesson7/server/httplib.h:308-310 | emplacing the entries of an ordered list one by one gives that list |
| Multimap.EmplaceAt | lesson7/server/httplib.h:3285 | for every list the new entry is put behind all entries up to the first greater one, and every entry keeps its place |
| Multimap.EmplaceAllSorts | lesson7/server/httplib.h:308-310 | emplacing entries in any order sorts them stably behind those already there: ordered, the same multiset, equal keys in the order in which they came |
| Multimap.SortIsUnique | lesson7/server/httplib.h:308-310 | and that determines the list |
| MessageHead.WriteHeaders | lesson7/server/httplib.h:3467-3479 | the lines in order, then the empty line, and the number of bytes |
| MessageHead.ParseHeader | lesson7/server/httplib.h:3224-3251 | the three scans find the key before the first colon and the value with blanks removed on both sides, or nothing |
| MessageHead.ReadHeaders | lesson7/server/httplib.h:3253-3290 | success under any short reads, and failure over a reliable connection, are those of the head parser on values, which stops behind the blank line; after any failure the headers are those of a position from which that parser goes on to its own result |
| MessageHead.HeaderLineParses | lesson7/server/httplib.h:3224-3251 | any line with a colon gives the key before the first one and the decoded value without the blanks and tabs around it, none needed; a blank value gives nothing |
| MessageHead.WireHeadParses | lesson7/server/httplib.h:3253-3290 | a head of lines in any order, with colon or without, ended by CR LF or LF: exactly the fields of the lines with colon and CR LF are emplaced; a line over 8192 bytes fails |
| MessageHead.ReadHeadersAreSorted | lesson7/server/httplib.h:3253-3290 | those fields are all there, sorted stably by name without case behind the headers already known |
| MessageHead.LessNoCaseIsStrictWeak | lesson7/server/httplib.h:296-304 | the order of names without case is a strict weak order |
| MessageHead.HeadRoundTrip | lesson7/server/httplib.h:3253-3290 | reading a printed head succeeds if and only if each line is within 8192 bytes; it stops right behind the blank line; blank values vanish and the others come back trimmed and percent-decoded, sorted stably by name; an ordered multimap comes back if and only if every value is nonempty, trimmed and without an escape |
| MessageHead.TruncatedHead | lesson7/server/httplib.h:3253-3290 | no proper prefix of a head is accepted, whatever its lines |
| RequestLines.ParseRequestLine | lesson7/server/httplib.h:4967-5028 | the result and the request left behind, on rejection too, are those of the grammar: CR LF, three words, known method and version, fragment dropped, at most one '?' |
| RequestLines.ReceiveRequestLine | lesson7/server/httplib.h:5637-5682 | over any short reads the server closes, answers 414 or 400, or accepts what the line says, and leaves what follows the line |
| RequestLines.RequestLineMeans | lesson7/server/httplib.h:4967-5028 | method, target and version: accepted exactly with a known method, HTTP/1.0 or HTTP/1.1 and at most one query that is not empty; the fragment is dropped, the first text the decoded path, the second the query |
| RequestLines.ReadWords | lesson7/server/httplib.h:4967-5009 | a line of any texts between blanks is read by those that are not empty, and refused unless there are three |
| RequestLines.RequestLineRoundTrip | lesson7/server/httplib.h:5642-5682 | from the client's request line the server reads back the method, the decoded path and the query parameters, with url encoding on or off, and leaves what follows; a line over 8192 bytes is answered with 414; the path itself comes back if and only if it holds no escape, the parameters if and only if they are distinct |
| RequestLines.NewlineCutsLine | lesson7/server/httplib.h:5642-5681 | a target with a newline sent without url encoding is cut there and refused |
| Base64.Base64Encode | lesson7/server/httplib.h:1938-1964 | the output is the group-wise encoding of RFC 4648, has length 4*ceil(n/3), and a standard decoder gives the input back |
| Base64.Accumulate | lesson7/server/httplib.h:1945-1955 | between bytes valb is -6, -4 or -2 and the wrapped accumulator still holds the unfinished group |
| Base64.PendingIsCompleted | lesson7/server/httplib.h:1949-1954 | losing bits at 32 never changes an emitted symbol |
| Base64.LastSymbol | lesson7/server/httplib.h:1957 | the symbol emitted after the loop is the started sextet padded with zero bits |
| Base64.EncodeDecodes | lesson7/server/httplib.h:1938-1964 | a decoder that insists on padding and zero left-over bits recovers every input |
| Base64.EncodeLength | lesson7/server/httplib.h:1959-1961 | four symbols for every group of three bytes that the input begins, padding included |
| Ranges.MakeRangeHeader | lesson7/server/httplib.h:4421-4432 | the loop prints the list with ", " between ranges and absent bounds left out |
| Ranges.ParseRangeHeader | lesson7/server/httplib.h:3729-3765 | result and list are those of the parser on values, with ranges before a bad one kept and overflow reported as failure |
| Ranges.RangeHeaderRoundTrip | lesson7/server/httplib.h:3729-3765 | over every list of ssize_t pairs, the printed header is accepted if and only if the list is nonempty, no bound is below -1 and no two bounds are out of order; then the list comes back |
| RangeHeaders.RangeHeaderGrammar | lesson7/server/httplib.h:3729-3734 | a text is matched if and only if it is "bytes=" and digits "-" digits, separated by commas, with any white space behind a comma |
| RangeHeaders.RangeHeaderMeans | lesson7/server/httplib.h:3729-3765 | such a header is accepted if and only if every bound fits ssize_t and no two are out of order; the list gets the ranges, leading zeros ignored, up to the first bad one |
| RangeHeaders.OtherTextsAreRefused | lesson7/server/httplib.h:3760-3765 | any other text is refused and leaves the list as it was |
| Ranges.ResolvedRange | lesson7/server/httplib.h:4025-4043 | cut to the content, offset and length select exactly the positions the range asks for; they stay inside the content if and only if the last position does; a suffix of n gives the last min(n, size) bytes |
| Ranges.LastPositionIsNotClamped | lesson7/server/httplib.h:4041-4042 | bytes 0-999 of ten resolve to a length of a thousand |
| Ranges.ServedIsSelected | lesson7/server/httplib.h:5559-5571 | for one range the server answers 416 if and only if nothing is selected, and otherwise sends exactly the selected bytes |
| Checksum.PingPacket.Checksum | lesson1/ping/main.cpp:130-144 | the loop computes the folded, complemented sum of the words, the accumulator's 32 bits included |
| Checksum.ChecksumIsOnesComplement | lesson1/ping/main.cpp:130-144 | up to 131074 bytes the sum cannot overflow and two folds give the complement of the one's complement sum, congruent modulo 65535 and zero only for zero |
| Checksum.LongestIsSharp | lesson1/ping/main.cpp:136 | two more bytes can overflow it |
| Checksum.SwappedChecksum | lesson1/ping/main.cpp:130-144 | swapping the bytes of every word swaps the bytes of the checksum |
| Checksum.WireBytesIgnoreByteOrder | lesson1/ping/main.cpp:132 | the bytes that end up in the packet do not depend on the host's byte order |
| Checksum.OddByteIsPadded | lesson1/ping/main.cpp:137 | a buffer of odd length has the checksum of the buffer padded with a zero byte if and only if the host is little-endian or the last byte is zero |
| Checksum.PingPacket.CreateNewPacket | lesson1/ping/main.cpp:181-204 | the buffer becomes the echo request: header in network order, the letter pattern, the checksum |
| Checksum.EchoRequestReads | lesson1/ping/main.cpp:181-204 | what a receiver reads: type 8, code 0, identifier and sequence number in network order, the letters over and over with a second a, and the checksum of the packet with a zero field |
| Checksum.PingPacket.IsValid | lesson1/ping/main.cpp:162-173 | decides whether the field matches, and leaves the buffer unchanged |
| Checksum.EchoRequestVerifies | lesson1/ping/main.cpp:162-204 | a packet from create_new_packet passes operator bool; it would with any checksum function, what the checksum is follows from the rows above |
| Checksum.EchoRequestIsAccepted | lesson1/ping/main.cpp:181-204 | the words of such a packet, its checksum included, sum to all ones, so every receiver that follows RFC 1071 accepts it |
| Checksum.StricterThanReceiverCheck | lesson1/ping/main.cpp:162-173 | the receiver's check of RFC 1071 accepts exactly the packets operator bool accepts, and those with a stored 0xFFFF where it computes 0 |
| Checksum.NegativeZeroIsRejected | lesson1/ping/main.cpp:162-173 | one of the latter |

## Left out

- Socket creation, `select`, name resolution, timeouts and error codes: a socket either delivers, is short, or fails.
- OpenSSL, zlib and brotli: the model uses `nocompressor` and the plain `ClientImpl`; a digest header is an opaque request to retry.
- `std::regex` in general: each pattern used is a hand-written recogniser with the same captures.
- Redirects.Send: redirects to another host run on another client object; they have the same counts and are modelled as the same recursion. Headers, which a 303 clears as it does the body, and the proxy's rewritten path are not modelled.
- Query.KeyWithEquals: says what becomes of a key with one '=' between nonempty trimmed halves; that no other key with a '=' comes back either is `Query.KeySurvives`.
- Query.KeyWithAmpersand: likewise for one '&'.
- Redirects.HandleRequest: the mutual recursion on a request passed by reference is modelled on values, the request returned with the result.
- Chunked.ReadContentWithLength: the caller's stack buffer is a value passed to the receiver, and the progress callback, which chunked reading does not use, is not modelled.
- Streams.SocketStream.Read: `memcpy` into the caller's buffer is a returned value, so aliasing of that buffer with the stream's own is not modelled.
- MessageHead.WriteHeaders: writes to the buffer stream the program uses here, on which no write fails, so the error return is not modelled.
- RequestLines.ReceiveRequestLine: the check of the descriptor against `FD_SETSIZE` and reading past the headers of a request answered with 414.
- ThreadPool.ReachableInv: one thread calls shutdown, once; jobs are opaque and terminate, and `on_idle` is not modelled.
- ClientProtocol.ReachableInv: a failed connection attempt hands out no descriptor; reuse of a closed descriptor's number by the operating system is not modelled, each connection gets a new number.
- Ranges.ServedIsSelected: several ranges in one response (`multipart/byteranges`) and provider-backed bodies are not modelled.
- Ranges.ResolvedRange: assumes a content length of at most 2^63 - 1, the most a byte string can hold.
- `CPPHTTPLIB_ALLOW_LF_AS_LINE_TERMINATOR` and the Windows branches.
- Routing, MIME and status tables, setters, the `Get`/`Post`/`Put` overloads, `is_valid_path`: table lookups and wrappers that would add only easy members.
- The other lessons: socket, Qt, pcap and asio plumbing.
