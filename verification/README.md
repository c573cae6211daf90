# Conflux wire protocols, verified

A Dafny model of the stream protocols, codecs and completion machinery that the
Conflux benchmarks and the library code under them run on, with proofs that hold
for every input, every fragmentation of a byte stream and every interleaving of
events. `dafny verify dfyconfig.toml` checks all of it.

What is modelled, by module:

- **LineServer, IncrementServer, LockStep** - the TCP increment benchmark: the line
  server with its 64- or 128-byte buffer as a refinement of a function of the byte
  stream, what it says to every stream, and client and server together as a state
  machine over two fragmenting channels.
- **Pipelining, ResponseReceiver, ResponseSyntax** - the HTTP/1.1 benchmark client's
  receivers for pipelined and for single responses, and how they read a header block.
- **H2Demux, H2Responses** - the HTTP/2 benchmark client's callbacks, stream map, GOAWAY
  handling and request body source, and what is stored for a stream, field by field.
- **ChunkedDecoder, ChunkedSyntax, ChunkedResume, ChunkedEncoders, ChunkedClient** - the
  resumable decoder of chunked bodies, the grammar it accepts, what resuming it on a
  growing buffer means, the benchmarks' encoders, and the client's receive loop around it.
- **Http1Parser, MessageSyntax, HeaderRefusal, RequestFraming, RequestExtent, HeaderOrder,
  CutRequests** - the HTTP/1 request parser, the grammar it accepts, which of its refusals
  are final, the framing decision of the adversarial benchmark and how far a request
  extends, its independence of the order of the header lines, and acceptable requests
  that are refused when they are cut.
- **CompletionTable, CompletionHistory, CompletionDelivery, CompletionLoop** - the io_uring
  completion table, every run of it including re-entrant cancellation, what each callback
  is called with, and the synthetic device whose completions resume a coroutine that
  submits again.
- **SplitMix, WeightedChoice** - the load generator's random numbers and weighted
  request choice, over the whole period of 2^64 calls.
- **DataRow, DataRowMessages** - PostgreSQL DataRow encoders and scanners, text and binary,
  on the benchmark's own rows and on any messages.
- **WebSocket** - masking, frame headers, and the frame round trip.
- **LspFraming, LspHeaders, LspMailbox** - the clangd driver's message framing, the header
  blocks and lengths it reads, and its waiting for a response.
- **RedirectChain** - a client following redirects against the loopback server.
- **CopyLoop** - the direct file copy.
- **Bytes, Numerals, Arithmetic, Bitwise, Channel** - searching, number printing and
  parsing, what numbers and names are as text, 64-bit arithmetic, exclusive-or on
  naturals, and the socket as an adversary that cuts reads and writes anywhere and may
  fail at any call.

Integers are unbounded; where a width matters it is written out (`% TWO64`,
`% TWO32`, `AsInt32`).

## Where the code does not meet the expectation

Each of these has a lemma with the exact condition and one at a concrete input or
family of inputs.

- The resumed chunked decoder and a single call on the whole input do not always
  agree, although `tests/http_server_helpers_test.cxx` presents them as agreeing. They
  disagree exactly when the whole is not rejected and some cut falls between the carriage
  return and the line feed of a size line of 256 bytes, or of a first trailer line that
  uses the whole 8192-byte allowance (`ChunkedResume.FeedIsWhole`,
  `SplitChangesVerdict`).
- The HTTP/1 parser refuses some acceptable requests when the input ends inside a line
  end, because it counts the beginning of that line end against a limit
  (`HeaderRefusal.PrematureRefusal`; `CutRequests.LineRefused`, `FieldRefused`,
  `BlockRefused`, at the default limits `DefaultsAreCovered`).
- The two line servers answer alike except when a line they reach has 64 to 127 bytes
  (`LineServer.SyncAndAsyncAgree`, `ServersDiffer`).
- `recv_slow` and `recv_n_responses` frame a 204 or 304 response by its Content-Length;
  `recv_response` does not (`ResponseReceiver.BodilessResponse`, `NotModifiedMissed`,
  `Pipelining.FrameOfHead`). A declared length that makes the `size_t` sum wrap counts as
  received at once (`ResponseSyntax.WrappedEnd`).
- Requeueing in `wait_response` puts the messages it had set aside behind the ones not
  yet looked at, and a timeout drops them (`LspMailbox.WaitKeepsOrder`, `OrderBroken`,
  `OrderInstance`, `WaitConserves`). It also takes a request of the server for the answer
  when both have the same number (`AnswerReturned`, `WrongMessage`).
- A GOAWAY with error code 0 makes a response whose stream never closed pass for a
  successful one, however much of its body is missing (`H2Demux.SuccessWithoutClose`,
  `CutBodyPasses`).
- The DataRow scanners do not notice that a last message is cut inside its payload, and
  read past the end when it is cut before (`DataRow.ScanTruncated`).
- A stale completion token is taken for a current one when its slot has been finished
  a multiple of 2^32 times since (`CompletionHistory.TokenReaches`, `StaleTokenTaken`).
- The DataRow scanners accept the encoders' output only while every message length fits
  in 32 bits (`DataRow.WireRoundTrip`, `ScanOversizedRow`); a masked text frame is
  received intact only below 65536 bytes (`WebSocket.FrameRoundTrip`, `ParseBuilt`); the
  synthetic loop returns the requested bytes only while an operation stays below 2^31
  bytes (`CompletionLoop.LoopReturnsBytes`, `LoopLosesBytes`); the redirect benchmark's
  budget only covers its chain while `hops + 2` fits an `int`, which its scenarios of one
  and three hops do (`RedirectChain.BenchmarkCall`, `BudgetOverflows`); `align_up` aligns
  upwards only while its sum does not wrap (`CopyLoop.AlignUpIsLeast`, `AlignUpWraps`).

## Model

| member | source | states |
|---|---|---|
| LineServer.RespondAppend | benchmarks/tcp_increment_coro_bench.cxx:99-147 | answering a stream in two parts equals answering it at once: the unfinished line is the only state carried over, and a closed connection stays closed |
| LineServer.RespondFirst | benchmarks/tcp_increment_coro_bench.cxx:106-138 | a complete line gets the same answer however much input follows it |
| LineServer.ConsumePrefix | benchmarks/tcp_increment_coro_bench.cxx:39-53 | in place, the held bytes become exactly the old ones without their first `drop`; dropping at least all of them leaves none |
| LineServer.AnswerLines | benchmarks/tcp_increment_coro_bench.cxx:106-138 | the inner loop sends exactly the protocol's answers to the complete lines held and leaves the unfinished one; a bad line stops it after the answers before it; a failed write has sent a prefix of them |
| LineServer.Serve | benchmarks/tcp_increment_coro_bench.cxx:93-148 | for every stream and every way reads and writes cut it, the bytes sent are the protocol function of the bytes delivered; unless the stop flag is set or a call fails they are that function of the whole stream, and the reason to close is the one it names; it reports a failure exactly when a call failed, and reads no more once the stop flag is seen |
| LineServer.ServeOne | benchmarks/tcp_increment_coro_bench.cxx:93-148 | the same for the synchronous server with its 64-byte buffer and its stop flag, and the increment handler; IncrementServer.Conversation and EveryStream say what that is for every stream |
| LineServer.ServeOneAsync | benchmarks/tcp_increment_coro_bench.cxx:420-467 | the same for the asynchronous server with its 128-byte buffer, which is never stopped, and the increment handler; IncrementServer.Conversation and EveryStream say what that is for every stream |
| LineServer.Delivered | benchmarks/tcp_increment_coro_bench.cxx:99-105 | one more read extends the reply by the reply to the kept and the new bytes, and a refusal there is the refusal of the whole stream |
| LineServer.Split | benchmarks/tcp_increment_coro_bench.cxx:99-105 | what has been sent after any number of bytes is a prefix of what will have been sent, and a refusal is final |
| LineServer.RespondJoined | benchmarks/tcp_increment_coro_bench.cxx:106-138 | a stream of acceptable lines is answered line by line, in order, with nothing left over |
| LineServer.IncrementLine | benchmarks/tcp_increment_coro_bench.cxx:114-126 | the decimal line of a 64-bit number is answered by the line of its successor modulo 2^64, and no such number is longer than 20 digits |
| LineServer.IncrementAll | benchmarks/tcp_increment_coro_bench.cxx:93-148 | a stream of 64-bit decimal lines is answered by the line of each successor, in order |
| LineServer.BufferSizeMatters | benchmarks/tcp_increment_coro_bench.cxx:420-467 | two servers that differ in buffer size reply and close alike if and only if no line they reach fits one buffer and not the other |
| LineServer.SyncAndAsyncAgree | benchmarks/tcp_increment_coro_bench.cxx:420-467 | the two servers agree if and only if the first reached line of 64 bytes or more, if there is one, has at least 128 |
| LineServer.ServersDiffer | benchmarks/tcp_increment_coro_bench.cxx:420-467 | a number of 64 to 127 digits is refused by the one server and answered by the other |
| Numerals.FromCharsReads | benchmarks/tcp_increment_coro_bench.cxx:114-118 | `from_chars` yields the number that the leading bytes 48 to 57 denote, read digit by digit from the left, and nothing else: no digits and 2^64 or more are its two errors |
| IncrementServer.IncrementIs | benchmarks/tcp_increment_coro_bench.cxx:114-126 | for every line: refused if and only if it does not begin with a decimal digit or its leading digits denote 2^64 or more; otherwise answered by the line of that number plus one, 0 after 2^64 - 1, whatever follows the digits |
| IncrementServer.Conversation | benchmarks/tcp_increment_coro_bench.cxx:93-148 | numbers, then something that is none, then anything: the successors of the numbers are sent in order, and the conversation ends there with the reason the bytes show (a full buffer, an unfinished line, an unparsable one) |
| IncrementServer.EveryStream | benchmarks/tcp_increment_coro_bench.cxx:93-148 | every stream is such a conversation, so this says what is sent and why it stops for all of them |
| IncrementServer.ClientChecks | benchmarks/tcp_increment_coro_bench.cxx:373-408 | the client goes on if and only if it has a line whose leading digits denote the successor of its number |
| IncrementServer.ServerChecks | benchmarks/tcp_increment_coro_bench.cxx:106-138 | the server's step answers a number by its successor and fails on anything else |
| LockStep.LineFacts | benchmarks/tcp_increment_coro_bench.cxx:221-230 | every 64-bit number fits the 24-byte conversion buffer with its newline, and its line has one newline, at the end |
| LockStep.ServerAnswers | benchmarks/tcp_increment_coro_bench.cxx:106-138 | when the server has a line it is the client's whole request, and answering it keeps the invariant and uses up work |
| LockStep.ClientDecodes | benchmarks/tcp_increment_coro_bench.cxx:373-408 | when the client has a line it is the whole answer, it is n + 1 modulo 2^64, and the next request can be encoded |
| LockStep.StepWorks | benchmarks/tcp_increment_coro_bench.cxx:347-408 | every I/O step of either side keeps exactly one line under way, cut into consecutive pieces, and uses up some of the remaining work |
| LockStep.Progress | benchmarks/tcp_increment_coro_bench.cxx:347-408 | no deadlock: while the client runs some step is possible |
| LockStep.RunIsSafe | benchmarks/tcp_increment_coro_bench.cxx:347-408 | in every run no state is a failure (unexpected number, unparsable line, full buffer, failed conversion), the client's number is start plus iterations done modulo 2^64, and the run has at most 150 steps per iteration |
| LockStep.MaximalRunFinishes | benchmarks/tcp_increment_coro_bench.cxx:347-408 | a run that cannot be extended has completed all iterations with n equal to start plus iterations modulo 2^64 |
| Pipelining.FrameByHead | benchmarks/http_server_bench.cxx:175-194 | a view that starts with a whole header block is framed by that block, whatever follows, even text that looks like a header field |
| Pipelining.FrameOfHead | benchmarks/http_server_bench.cxx:175-194 | the framing is the true one if and only if the response declares the length of its body |
| Pipelining.FieldInside | benchmarks/http_server_bench.cxx:180-189 | a field found in a header block lies before the empty line and its line ends inside the block |
| Pipelining.FieldBeyond | benchmarks/http_server_bench.cxx:180-184 | a field that the block does not have is never found before the block's end, so a later response's field is not mistaken for it |
| Pipelining.HeadCut | benchmarks/http_server_bench.cxx:176-179 | no proper prefix of a header block looks complete |
| Pipelining.NextResponse | benchmarks/http_server_bench.cxx:175-197 | in any prefix of a pipelined stream the next turn takes response k if and only if all of it has arrived, and then ends exactly where it ends |
| Pipelining.TakeResponse | benchmarks/http_server_bench.cxx:175-197 | the searches on the whole buffer give the frame of the suffix at the cursor, with the end computed in `size_t` arithmetic |
| Pipelining.CountResponses | benchmarks/http_server_bench.cxx:175-197 | afterwards `got` is the number of complete responses in the buffer, up to `count`, and the cursor is where they end |
| Pipelining.RecvNResponses | benchmarks/http_server_bench.cxx:162-203 | for any pipelined responses and any splitting: it returns whenever the peer sends `count` responses that fit the buffer and the socket does not fail, after the first receive that completes them; a shortfall reports the number sent; the buffer holds the stream's bytes |
| ResponseReceiver.RecvResponse | benchmarks/http_server_bench.cxx:107-146 | for every stream and splitting the call returns after the first receive that completes the response, blames a closed connection or a full buffer only when the response was not complete, and the socket only when it failed |
| ResponseReceiver.CompleteAt | benchmarks/http_server_bench.cxx:118-144 | the received part is complete if and only if it has the header block and the declared number of bytes, added up in `size_t` arithmetic, or the receiver knows that there is no body |
| ResponseReceiver.WholeResponse | benchmarks/http_server_bench.cxx:107-146 | a response with its declared body is received whole, and as soon as it is whole |
| ResponseReceiver.BodilessResponse | benchmarks/http_server_bench.cxx:225-268 | a 204 or 304 response that is all header always satisfies the ordinary receiver, and the slow one if and only if it declares no body or a length that wraps the sum |
| ResponseReceiver.NotModifiedMissed | benchmarks/http_server_bench.cxx:225-268 | a 304 response with any realistic nonzero Content-Length: the ordinary receiver returns, the slow one does not, and the pipelined one does not count it |
| ResponseSyntax.DeclaredRead | benchmarks/http_server_bench.cxx:175-194 | the declared length is the number that the digits after the first "Content-Length: " denote, up to the end of that line; 0 without digits or from 2^64 on |
| ResponseSyntax.DeclaredNone | benchmarks/http_server_bench.cxx:175-194 | without that text nothing is declared |
| ResponseSyntax.BodilessIs | benchmarks/http_server_bench.cxx:225-268 | the responses taken to have no body are those that begin with "HTTP/1.1 204" or "HTTP/1.1 304" |
| ResponseSyntax.WrappedEnd | benchmarks/http_server_bench.cxx:175-194 | a response whose declared length makes the sum wrap is counted at once, and the search goes on from inside its own header block |
| H2Demux.Demultiplexed | benchmarks/http2_server_bench.cxx:330-385 | after any interleaving of events each stream's stored response is the fold of that stream's own events |
| H2Responses.Stored | benchmarks/http2_server_bench.cxx:330-385 | field by field, for every delivery: the body is the stream's data in order, the trailers its trailer fields in order, the error code that of its last close, the status that of its last ":status", and it is closed once a close has come |
| H2Responses.Listed | benchmarks/http2_server_bench.cxx:330-385 | a stream has an entry if and only if it had one or a status, a trailer, data or a close of it has come |
| H2Responses.StatusIs | benchmarks/http2_server_bench.cxx:330-351 | a status is its leading digits, negative after a minus sign, and 0 without digits or outside the 32-bit range |
| H2Responses.PrintedStatus | benchmarks/http2_server_bench.cxx:330-351 | every status up to 2^31 - 1 is read back from its decimal text |
| H2Responses.ClosedSuccess | benchmarks/http2_server_bench.cxx:207-222 | a new stream that was closed is successful if and only if its last close has error code 0 and the digits of its last status denote 200 |
| H2Demux.GoawayFold | benchmarks/http2_server_bench.cxx:375-385 | GOAWAY is remembered once seen, with the error code of the last one |
| H2Demux.InterleavingIrrelevant | benchmarks/http2_server_bench.cxx:330-385 | two deliveries that agree stream by stream and on GOAWAY frames leave the same state |
| H2Demux.SwapIrrelevant | benchmarks/http2_server_bench.cxx:330-385 | swapping adjacent events of different streams anywhere in a delivery changes nothing |
| H2Demux.H2Client.Callback | benchmarks/http2_server_bench.cxx:330-385 | each callback updates only the entry of its own stream, creating it where `operator[]` does, or only the GOAWAY fields; H2Responses.Stored says what each field of an entry then is |
| H2Demux.H2Client.PumpOnce | benchmarks/http2_server_bench.cxx:280-302 | a batch of events leaves the fold of the batch |
| H2Demux.H2Client.PumpUntilClosed | benchmarks/http2_server_bench.cxx:304-317 | it pumps exactly until the stream is closed or a GOAWAY has been seen; a stream left open by GOAWAY is closed with its code, and is then successful exactly for code 0 and status 200; a GOAWAY from an earlier request ends the wait at once; otherwise it times out with the stream still open |
| H2Demux.SuccessWithoutClose | benchmarks/http2_server_bench.cxx:304-317 | a response handed out although its stream never closed is successful if and only if the last GOAWAY has code 0 and the last status was 200, whatever its body |
| H2Demux.CutBodyPasses | benchmarks/http2_server_bench.cxx:304-317 | a delivery in which a body cut after two bytes passes for a whole one |
| H2Demux.H2Client.TakeResponse | benchmarks/http2_server_bench.cxx:234-244 | it returns the stored response and forgets that stream only; a missing one changes nothing |
| H2Demux.H2Client.CheckedBodyBytesAndClear | benchmarks/http2_server_bench.cxx:207-222 | it succeeds if and only if the streams are distinct and each has a successful response, returning the sum of their body sizes and forgetting exactly them; on failure it has stopped at the first bad stream and forgotten those up to there |
| H2Demux.ReqBody.Read | benchmarks/http2_server_bench.cxx:387-407 | each call hands out the next bytes, as many as fit, and flags the end exactly when none are left |
| H2Demux.ReqBody.Upload | benchmarks/http2_server_bench.cxx:387-407 | over any buffer sizes the chunks are exactly the body, and the end is flagged by the first call that reaches it and by no earlier one |
| Bytes.BigEndianRoundTrip | benchmarks/db_protocol_synthetic_bench.cxx:132-172 | reading k big-endian bytes gives back every number below 256^k |
| DataRow.AppendU32 | benchmarks/db_protocol_synthetic_bench.cxx:132-139 | the shifted and masked bytes are the big-endian form |
| DataRow.AppendI64BE | benchmarks/db_protocol_synthetic_bench.cxx:141-148 | the shift loop appends the eight-byte big-endian form of the two's complement |
| DataRow.ReadI64BE | benchmarks/db_protocol_synthetic_bench.cxx:165-172 | the loop reads eight big-endian bytes as a signed integer |
| DataRow.I64RoundTrip | benchmarks/db_protocol_synthetic_bench.cxx:141-172 | the codec gives back every signed 64-bit integer, whatever follows |
| DataRow.MakePayload | benchmarks/db_protocol_synthetic_bench.cxx:57-67 | the payload is the row's unit repeated and cut to exactly n bytes |
| DataRowMessages.PayloadText | benchmarks/db_protocol_synthetic_bench.cxx:57-67 | the unit is "row", the row's number and an underscore |
| DataRow.MakeWireRows | benchmarks/db_protocol_synthetic_bench.cxx:174-211 | both encoders emit one message per row, numbered from 1, with both lengths cut to 32 bits |
| DataRow.ConsumeColumns | benchmarks/db_protocol_synthetic_bench.cxx:227-247 | the column loop computes the column scan: NULL skipped, first column parsed completely, of the others only the length read and added, also when it leads past the data; reads outside the data told apart |
| DataRow.ConsumeWire | benchmarks/db_protocol_synthetic_bench.cxx:213-290 | the cursor loop of either scanner computes the message-by-message scan of the data, for every input, ending when the cursor reaches or passes the end |
| DataRow.ScanFittingRow | benchmarks/db_protocol_synthetic_bench.cxx:213-290 | a row whose length fits is taken whole, whatever follows, and adds its number and its payload size |
| DataRow.ScanOversizedRow | benchmarks/db_protocol_synthetic_bench.cxx:213-290 | a row whose length does not fit is refused for its length or its next tag, never read out of bounds |
| DataRow.ScanRows | benchmarks/db_protocol_synthetic_bench.cxx:213-290 | rows are accepted if and only if each fits, and then add up modulo 2^64 |
| DataRow.RowsSumIs | benchmarks/db_protocol_synthetic_bench.cxx:174-211 | the closed form of what the rows add up to |
| DataRow.WireRoundTrip | benchmarks/db_protocol_synthetic_bench.cxx:174-290 | each scanner accepts its encoder's output if and only if every message length fits in 32 bits, and then adds rows(rows+1)/2 + rows*payload modulo 2^64 |
| DataRowMessages.RowRead | benchmarks/db_protocol_synthetic_bench.cxx:213-290 | any message, with any number of columns, NULL or not: refused for a first column that is no number, then for a wrong length; otherwise the scan moves behind it and adds its number and the sizes of its other columns |
| DataRowMessages.MessagesSum | benchmarks/db_protocol_synthetic_bench.cxx:213-290 | any messages without a problem add up modulo 2^64, and anything but a message after them is refused |
| DataRowMessages.ProblemFound | benchmarks/db_protocol_synthetic_bench.cxx:213-290 | after good messages the first problem is what the scan reports |
| DataRow.PrefixOfRows | benchmarks/db_protocol_synthetic_bench.cxx:174-211 | every nonempty prefix of the encoders' output is some whole rows and a nonempty part of the next |
| DataRow.ScanTruncated | benchmarks/db_protocol_synthetic_bench.cxx:213-290 | output cut inside row r is accepted if and only if the cut is not before its payload, and then counts the whole payload; otherwise the scanner reads past the end |
| SplitMix.XorShiftBijective | benchmarks/http11_representative_bench.cxx:453-455 | z ^ (z >> k) has an explicit two-sided inverse for shifts of at least a third of a word |
| SplitMix.MulInverse | benchmarks/http11_representative_bench.cxx:453-454 | multiplying by an odd constant modulo 2^64 is undone by its inverse |
| SplitMix.MixBijective | benchmarks/http11_representative_bench.cxx:452-455 | the output function is a bijection on 64-bit words |
| SplitMix.KnownOutput | benchmarks/http11_representative_bench.cxx:452-455 | one output written out in numbers, which fixes the order of the shifts and multipliers |
| SplitMix.KnownCall | benchmarks/http11_representative_bench.cxx:448-456 | the same for a call of the generator, which fixes the increment of the state |
| SplitMix.NextRng | benchmarks/http11_representative_bench.cxx:449-456 | a call advances the state by one step and returns the output of that step |
| SplitMix.AdvanceIs | benchmarks/http11_representative_bench.cxx:451-451 | the state after k calls in closed form |
| SplitMix.DistanceIsUnique | benchmarks/http11_representative_bench.cxx:451-451 | every state is reached from every other by exactly one number of calls below 2^64 |
| SplitMix.FullPeriod | benchmarks/http11_representative_bench.cxx:449-456 | the state returns after 2^64 calls and not before |
| SplitMix.EveryWordOnce | benchmarks/http11_representative_bench.cxx:449-456 | in one period every 64-bit word is returned by exactly one call, given explicitly |
| WeightedChoice.SelectedOnce | benchmarks/http11_representative_bench.cxx:462-468 | a residue selects at most one request |
| WeightedChoice.ChooseRequestIndex | benchmarks/http11_representative_bench.cxx:458-470 | the subtracting loop picks the request whose interval holds the residue; the fallback is reached if and only if the residue is not below the sum of the weights, so never with their total |
| WeightedChoice.ResidueCount | benchmarks/http11_representative_bench.cxx:458-470 | request i is selected by exactly weight i of the residues |
| WeightedChoice.HitCount | benchmarks/http11_representative_bench.cxx:462-462 | how many numbers below any bound have their residue in an interval |
| WeightedChoice.PeriodCount | benchmarks/http11_representative_bench.cxx:449-470 | over one period request i is chosen exactly weight i times per full round of residues plus its share of the last round |
| WeightedChoice.PeriodBounds | benchmarks/http11_representative_bench.cxx:449-470 | so between weight times floor(2^64/W) and weight times one more |
| ChunkedDecoder.ParseChunkSizeLine | src/net/http_parse_helpers.cxx:54-84 | the digit loop yields the hexadecimal value before the first semicolon, refused exactly for length, emptiness, more than 16 digits or a bad digit; its two overflow tests never fire |
| ChunkedDecoder.RunKeepsLimit | src/net/http_parse_helpers.cxx:212-310 | in every state the body and what the current chunk still promises stay within the body limit |
| ChunkedDecoder.Decoder.Activate | src/net/http_parse_helpers.cxx:197-223 | reset and activation give the initial state at the body's start |
| ChunkedDecoder.Decoder.ChunkCase | src/net/http_parse_helpers.cxx:241-257 | after a size line: the last chunk, a chunk over the limit or a chunk to read, as the step function says |
| ChunkedDecoder.Decoder.SizeLineCase | src/net/http_parse_helpers.cxx:227-257 | the size line case refines its step on the unread bytes |
| ChunkedDecoder.Decoder.DataCase | src/net/http_parse_helpers.cxx:258-275 | the data case refines its step: it takes what has arrived of the chunk and no more |
| ChunkedDecoder.Decoder.DataCrlfCase | src/net/http_parse_helpers.cxx:276-285 | the line end after the data must be exactly a line end |
| ChunkedDecoder.Decoder.TrailersCase | src/net/http_parse_helpers.cxx:286-306 | trailers are passed over within their limits until the empty line |
| ChunkedDecoder.Decoder.Decode | src/net/http_parse_helpers.cxx:212-310 | a call on a longer buffer leaves the state, position and verdict of the turn function run from where the last call stopped, or from the start for another body |
| ChunkedSyntax.SizeLineIs | src/net/http_parse_helpers.cxx:54-84 | a size line is at most 256 bytes, one to sixteen hexadecimal digits and then nothing or a semicolon and anything; its size is what the digits denote, and no other line has one |
| ChunkedSyntax.SizeLineCase | src/net/http_parse_helpers.cxx:54-84 | a size line and its upper-case form mean the same |
| ChunkedSyntax.BodyRead | src/net/http_parse_helpers.cxx:212-310 | every body of the grammar within the limits (chunks with extensions, last chunk, trailers) is decoded to exactly its data, with its counts, leaving what follows |
| ChunkedSyntax.BodyForm | src/net/http_parse_helpers.cxx:212-310 | whatever is decoded to the end is a body of the grammar within the limits |
| ChunkedSyntax.LineRefused | src/net/http_parse_helpers.cxx:227-257 | after good chunks, one chunk too many or a line that is no size is invalid, and a chunk over the body limit is too large; what was decoded is the data before it |
| ChunkedSyntax.DataEndRefused | src/net/http_parse_helpers.cxx:276-285 | data that is not followed by a line end is invalid |
| ChunkedSyntax.TrailersRefused | src/net/http_parse_helpers.cxx:286-306 | a trailer beyond 64 lines or 8192 bytes is invalid |
| ChunkedResume.ResumeWaiting | src/net/http_parse_helpers.cxx:212-310 | a call that asked for more and is resumed behaves as if it had been given everything at once |
| ChunkedResume.ResumeDone | src/net/http_parse_helpers.cxx:212-310 | completion and refusal for size are not changed by more input, which is left unread |
| ChunkedResume.RejectionStands | src/net/http_parse_helpers.cxx:212-310 | a rejection stands whatever follows, except the line feed of a line cut at the maximal length |
| ChunkedResume.CutLinePasses | src/net/http_parse_helpers.cxx:229-234 | once its line feed arrives such a cut line is no longer rejected |
| ChunkedResume.CutCompletes | src/net/http_parse_helpers.cxx:212-310 | explicit bytes that complete the body after a cut line, when body and chunk limits leave room |
| ChunkedResume.NoChunkLeft | src/net/http_parse_helpers.cxx:237-239 | a body whose chunk count is used up before its last chunk is never completed |
| ChunkedResume.PrematureRejection | src/net/http_parse_helpers.cxx:212-310 | a rejected input can be continued to a complete body if and only if it ends in a cut line after which the limits leave room to complete it |
| ChunkedResume.CutMisleads | src/net/http_parse_helpers.cxx:229-234 | cutting an input somewhere misleads the decoder if and only if the cut is inside the line end of an acceptable line of maximal length that decoding the whole reaches |
| ChunkedResume.FeedIsWhole | tests/http_server_helpers_test.cxx:349-371 | for every cutting of the input into pieces, the resumed decoder and one call on the whole agree on verdict, body and leftover if and only if the whole is rejected or no cut is inside such a line end |
| ChunkedResume.FeedRejectsCutLine | src/net/http_parse_helpers.cxx:229-234 | where it gave up on a cut line, the bytes taken so far and a line feed are not rejected by one call |
| ChunkedResume.SplitChangesVerdict | src/net/http_parse_helpers.cxx:229-234 | a concrete valid body accepted in one piece and rejected in two |
| ChunkedEncoders.DecodeEncoded | src/net/http_parse_helpers.cxx:212-310 | decoding a body encoded in chunks of k completes if and only if bytes and chunk count are within the limits, giving the body back and leaving what follows |
| ChunkedEncoders.RoundTrip | benchmarks/http_client_bench.cxx:378-400 | from the start state: the body back in ceil(len/k) chunks and the last one |
| ChunkedEncoders.DecodeTooLarge | src/net/http_parse_helpers.cxx:251-253 | a body over the limit is refused at the first chunk that would cross it, having decoded exactly the whole chunks before |
| ChunkedEncoders.LimitLateIsTooLarge | benchmarks/http_adversarial_bench.cxx:282-295 | the late-limit body is refused as too large only in its last data chunk |
| Numerals.PrintIsLower | benchmarks/http_adversarial_bench.cxx:282-295 | printed sizes have lower-case hexadecimal digits only |
| ChunkedEncoders.MakeChunkedResponse | benchmarks/http_client_bench.cxx:378-400 | the cursor loop emits the chunk encoding of the body, for every chunk size |
| ChunkedEncoders.MakeChunkedMany | benchmarks/http11_representative_bench.cxx:304-318 | the same for the loop whose cursor may step past the end |
| ChunkedEncoders.MakeChunkedBodyLimitLate | benchmarks/http_adversarial_bench.cxx:282-295 | it emits one byte more than the limit in chunks of 64 |
| ChunkedEncoders.MakeChunkedSmallChunks | benchmarks/http_adversarial_bench.cxx:259-270 | it emits its chunks of one byte each and the last chunk |
| ChunkedClient.RecvSome | src/net/client.cxx:385-404 | it appends exactly what one receive delivers, or nothing at the end of the stream or when the socket fails |
| ChunkedClient.RecvChunked | src/net/client.cxx:497-526 | however the stream is cut, a delivered body is the body one decode of the whole stream yields, and every refusal is explained; a stream that this decode accepts and the buffer can hold is delivered unless the socket fails or a line of maximal length is cut |
| ChunkedClient.Later | src/net/client.cxx:497-526 | what a decode of the bytes so far says about a decode of all of them |
| Http1Parser.ParseFieldLines | src/net/http1_parser.cxx:221-239 | the header loop computes the line-by-line parse, whose fields MessageSyntax.FieldRead and FieldForm pin to the text and whose refusals are in the order of MessageSyntax.HeadRefused |
| Http1Parser.ScanHeaderLines | src/net/http1_parser.cxx:105-121 | the scan of an incomplete block computes the first refusal, or incomplete |
| Http1Parser.Parse | src/net/http1_parser.cxx:204-243 | the whole parser computes the request or the status that MessageSyntax.HeadRead, HeadForm, HeadRefused and UnfinishedHead tell from the text |
| MessageSyntax.TokenBytes | src/net/http1_parser.cxx:30-54 | token characters are the visible ones without the delimiters of section 5.6.2 of RFC 9110 |
| MessageSyntax.RequestLineRead | src/net/http1_parser.cxx:124-151 | verb, target and version, with single spaces between them, are read into those three parts |
| MessageSyntax.RequestLineForm | src/net/http1_parser.cxx:124-151 | only such a line is read, into parts that make it up |
| MessageSyntax.FieldRead | src/net/http1_parser.cxx:165-199 | a name, a colon and a value between any blanks is read into the name and the value without those blanks |
| MessageSyntax.FieldForm | src/net/http1_parser.cxx:165-199 | only such a line is read, into a name and a value that make it up |
| MessageSyntax.HeadRead | src/net/http1_parser.cxx:204-243 | a head of the grammar is parsed back to its verb, target, version and fields in order, with its end, if and only if it is within the limits |
| MessageSyntax.HeadForm | src/net/http1_parser.cxx:204-243 | whatever is parsed is a head of the grammar within the limits, and the request is made of its parts |
| MessageSyntax.HeadRefused | src/net/http1_parser.cxx:204-243 | a complete head is refused for the first of: the length of its request line, the size of its block, the form of its request line, and each header line's length, number and form in order |
| MessageSyntax.UnfinishedHead | src/net/http1_parser.cxx:73-122 | an unfinished head is refused for the first of: the length of its request line, the size of what has arrived of its block, and each line's length and number in order; otherwise it waits |
| Http1Parser.HeaderEndInside | src/net/http1_parser.cxx:204-243 | a parsed request's header end and its empty line lie inside the input, and the header limit holds |
| Http1Parser.ParseStays | src/net/http1_parser.cxx:73-99 | once the block is complete, what follows changes neither the request nor the reason to reject it |
| Http1Parser.RequestLineRefusal | src/net/http1_parser.cxx:76-82 | an overlong unfinished request line is refused at once, and finally unless the input is a line of the permitted length cut before its line feed |
| HeaderRefusal.ScanRefusalStands | src/net/http1_parser.cxx:105-121 | a refusal by the scan of an incomplete block stands for every continuation that does not complete a line end across the cut |
| HeaderRefusal.FieldsRefused | src/net/http1_parser.cxx:221-239 | the header loop refuses every completed block whose beginning the scan refused |
| HeaderRefusal.LinesParse | src/net/http1_parser.cxx:221-239 | the header loop accepts a block if and only if its lines fit the limits and are valid fields, also when the last line feed comes later |
| HeaderRefusal.CutShape | src/net/http1_parser.cxx:73-122 | an input refused now and accepted later was cut inside a line end of the block |
| HeaderRefusal.PrematureRefusal | src/net/http1_parser.cxx:73-122 | a refused input can be continued to an accepted request if and only if it ends inside a line end and everything before that fits the limits and is valid: request line, header lines and block size |
| HeaderRefusal.RefusalReopened | src/net/http1_parser.cxx:73-122 | it can be continued to one that is not refused if and only if that holds or the cut line, whatever it contains, fits the limits |
| CutRequests.LineRefused | src/net/http1_parser.cxx:76-82 | every request line of the permitted length is refused before its line feed and accepted with it |
| CutRequests.FieldRefused | src/net/http1_parser.cxx:105-121 | every acceptable request whose last header line has the permitted length is refused before the line feed of that line and accepted when completed |
| CutRequests.BlockRefused | src/net/http1_parser.cxx:101-103 | every acceptable request whose header block has the permitted size is refused before its empty line and accepted with it |
| CutRequests.SomeLineRefused | src/net/http1_parser.cxx:76-82 | such a GET request exists for every request line limit from 14 bytes on |
| CutRequests.SomeFieldRefused | src/net/http1_parser.cxx:105-121 | and for every header line limit from 2 bytes on |
| CutRequests.SomeBlockRefused | src/net/http1_parser.cxx:101-103 | and for every block limit that the permitted number of lines can fill |
| CutRequests.DefaultsAreCovered | src/net/config.cxx:20-31 | all three exist at the default limits of the server |
| RequestFraming.ConsumedWithinInput | benchmarks/http_adversarial_bench.cxx:450-551 | the evaluation never reports more bytes consumed than there are |
| RequestFraming.ValuesRearranged | benchmarks/http_adversarial_bench.cxx:465-485 | a rearrangement of the fields rearranges the values of each name, case-insensitively |
| RequestFraming.OrderIrrelevant | benchmarks/http_adversarial_bench.cxx:471-522 | the decision on the body depends only on the multiset of header fields |
| RequestFraming.AcceptedByOne | benchmarks/http_adversarial_bench.cxx:450-551 | an accepted request has at most one Content-Length or Transfer-Encoding in all and, for HTTP/1.1, one Host; with a length it is complete if and only if that many bytes follow, and takes exactly those; with a coding, if and only if the decoder completes, and takes exactly what it took |
| RequestExtent.DecisionTable | benchmarks/http_adversarial_bench.cxx:471-523 | for every outcome of the header check exactly when it is reached, by the number of Host, Content-Length and Transfer-Encoding fields in any letter case, the digits of the length and the text of the coding |
| RequestExtent.CodingIs | benchmarks/http_adversarial_bench.cxx:437-448 | the accepted coding is "chunked" in any letter case between blanks |
| RequestExtent.RefusalReason | benchmarks/http_adversarial_bench.cxx:450-461 | each refusal of the parser is reported under its own reason as complete, and an unfinished head as incomplete, a timeout where the case says so |
| RequestExtent.RejectedEvaluated | benchmarks/http_adversarial_bench.cxx:463-523 | a request that its fields reject is rejected for that reason at the end of its head, whatever follows |
| RequestExtent.BareEvaluated | benchmarks/http_adversarial_bench.cxx:463-553 | an accepted request without a body ends with its head |
| RequestExtent.FixedEvaluated | benchmarks/http_adversarial_bench.cxx:497-516 | with a length it ends that many bytes after its head, and waits for them |
| RequestExtent.ChunkedEvaluated | benchmarks/http_adversarial_bench.cxx:517-551 | any chunked body of the grammar within the limits: accepted and complete, with the size of its data, and it ends with the body, whatever follows |
| RequestExtent.EncodedEvaluated | benchmarks/http_adversarial_bench.cxx:517-551 | any body in chunks of any size within the limits: accepted and complete, the whole body is decoded, and the request ends with the last chunk |
| RequestExtent.UndecodedEvaluated | benchmarks/http_adversarial_bench.cxx:532-549 | an invalid chunk and too much data reject all that has arrived, each for its reason, and an unfinished body waits; what was decoded is reported |
| RequestExtent.OwnExtent | benchmarks/http_adversarial_bench.cxx:450-551 | the bytes that an accepted request reports as its own are accepted alone, with the same result |
| RequestExtent.NoShorter | benchmarks/http_adversarial_bench.cxx:450-551 | no proper prefix of them is accepted as complete: it is incomplete, or refused in the middle of a line end |
| RequestFraming.BodyStands | benchmarks/http_adversarial_bench.cxx:497-550 | a decided body keeps its reason, and an accepted one its extent, whatever follows |
| RequestFraming.DecisionStands | benchmarks/http_adversarial_bench.cxx:450-551 | for every input, a decision is upheld by every continuation if and only if it was not a rejection in the middle of a line end that the limits still allowed |
| HeaderOrder.ParseRaw | src/net/http1_parser.cxx:204-243 | exactly when a request of given lines parses, and into what: its fields in order and its header end |
| HeaderOrder.Rearranged | src/net/http1_parser.cxx:221-239 | header lines in another order take the same room and give the same multiset of fields |
| HeaderOrder.LineOrderIrrelevant | benchmarks/http_adversarial_bench.cxx:450-551 | for any two orders of the header lines of a raw request, if the one parses so does the other and `evaluate_case` gives the same result for both |
| CompletionTable.ReserveKeepsValid | src/uring/uring_completion.cxx:48-68 | a reservation gets a slot nobody holds and keeps the free list exact |
| CompletionTable.DispatchKeepsValid | src/uring/uring_completion.cxx:81-122 | every completion, current or stale, keeps the free list exact |
| CompletionTable.CancelFrees | src/uring/uring_completion.cxx:134-151 | cancelling from a slot on frees every slot from there and touches none before |
| CompletionTable.Completions.Reserve | src/uring/uring_completion.cxx:48-80 | the token names the slot and its generation; a full table changes nothing |
| CompletionTable.Completions.Dispatch | src/uring/uring_completion.cxx:81-122 | single, multishot and zero-copy completions: who is called with what, and when the slot is freed with its next generation; CompletionDelivery.CallbackGets says over every run what each callback gets |
| CompletionTable.Completions.HasPendingNotifications | src/uring/uring_completion.cxx:123-127 | true if and only if a zero-copy send waits for its notification |
| CompletionTable.Completions.CancelAll | src/uring/uring_completion.cxx:130-153 | refused if and only if a notification is pending; otherwise every parked callback is called once in slot order and nothing stays in use |
| CompletionTable.Completions.Pending | src/uring/uring_completion.cxx:154-154 | the count is the number of slots in use |
| CompletionTable.PendingIsInUse | src/uring/uring_completion.cxx:154-154 | slots minus free entries is the number of slots in use |
| CompletionHistory.StepKeepsInv | src/uring/uring_completion.cxx:48-122 | every operation keeps the ledger in step with the table: each slot in use is held by one unfinished reservation of the current round |
| CompletionHistory.RunKeepsInv | src/uring/uring_completion.cxx:48-122 | so does every run |
| CompletionHistory.TokensDistinct | src/uring/uring_completion.cxx:48-80 | two live reservations never share a token |
| CompletionHistory.TokenReaches | src/uring/uring_completion.cxx:81-93 | a token reaches its own reservation while that is live; afterwards it is ignored if and only if the slot is idle or has been finished a number of times since that is not a multiple of 2^32 |
| CompletionHistory.CyclesRun | src/uring/uring_completion.cxx:48-122 | after k times reserving and completing, the one slot has been finished k times and its generation is k modulo 2^32 |
| CompletionHistory.StaleTokenTaken | src/uring/uring_completion.cxx:81-93 | a run after which the first token of all, long finished, finishes another reservation |
| CompletionHistory.StepFinishes | src/uring/uring_completion.cxx:81-122 | a completion finishes one reservation, once, or none, and nothing is unfinished again |
| CompletionHistory.Conservation | src/uring/uring_completion.cxx:154-154 | reservations made equal reservations finished plus slots in use |
| CompletionHistory.RunFromStart | src/uring/uring_completion.cxx:48-122 | both hold after every run from the empty table |
| CompletionDelivery.CallbackGets | src/uring/uring_completion.cxx:81-122 | over every run: a single-shot callback gets the first result that carries its live token, once; a multishot one every result in order up to and including the first that is negative or has no more to come; a zero-copy send one call, at its notification with the bytes of the completion before it or EIO, else with the result that ended it; each is live exactly until then |
| CompletionDelivery.NeverAgain | src/uring/uring_completion.cxx:81-122 | a finished reservation is never called again |
| CompletionDelivery.NotificationIsPending | src/uring/uring_completion.cxx:123-127 | over every run: a live reservation counts as waiting for a notification exactly when it is a zero-copy send that has received a completion |
| CompletionDelivery.LastFreedFirst | src/uring/uring_completion.cxx:48-68 | the slot that a completion frees is the next one reserved, in its next round |
| CompletionDelivery.CancelCallsEach | src/uring/uring_completion.cxx:134-151 | cancelling calls the callback of every slot in use, in slot order, with -ECANCELED (125), and makes no other call |
| CompletionDelivery.SlotsFit | src/uring/uring_completion.cxx:48-68 | in every run slot numbers fit 32 bits |
| CompletionDelivery.RefusedWhenFull | src/uring/uring_completion.cxx:55-57 | a reservation is refused only when 2^32 - 1 others are live |
| CompletionHistory.CancelFinishes | src/uring/uring_completion.cxx:134-151 | the cancelling loop reaches the slot of every earlier reservation, with callbacks that use the table in between |
| CompletionHistory.AllCancelled | src/uring/uring_completion.cxx:130-153 | cancel_all is refused, changing nothing, if and only if a notification is pending; otherwise, whatever the callbacks do to the table meanwhile, it finishes every reservation made before it started |
| CompletionHistory.RefusedWhileWaiting | src/uring/uring_completion.cxx:130-133 | a run after which cancel_all is refused and a reservation stays live |
| CompletionLoop.Device.constructor | benchmarks/synthetic_cqe_coro_bench.cxx:44-120 | the coroutine has started and awaits its first operation, or is done |
| CompletionLoop.Device.AsyncOp | benchmarks/synthetic_cqe_coro_bench.cxx:63-82 | the one pending completion names the one slot in use and carries the size cut to 32 bits |
| CompletionLoop.Device.Continue | benchmarks/synthetic_cqe_coro_bench.cxx:110-120 | the coroutine runs to its next suspension or its end and its outlook is that of the loop from there |
| CompletionLoop.Device.Resume | benchmarks/synthetic_cqe_coro_bench.cxx:67-73 | a completion value resumes the coroutine, an error fails it; one awaited operation fewer remains |
| CompletionLoop.Device.CompleteOne | benchmarks/synthetic_cqe_coro_bench.cxx:84-93 | despite the submission from inside the dispatch, submitted equals completed plus pending and a running coroutine always has a pending completion |
| CompletionLoop.Drive | benchmarks/synthetic_cqe_coro_bench.cxx:247-258 | the drive loop ends with the coroutine's result after exactly as many completions as it awaits, never on an empty queue |
| CompletionLoop.LoopTotals | benchmarks/synthetic_cqe_coro_bench.cxx:110-120 | with operations below 2^31 bytes the loop returns all bytes in one completion per piece |
| CompletionLoop.LoopAtMost | benchmarks/synthetic_cqe_coro_bench.cxx:78-78 | it never returns more than asked for, and less as soon as an operation has 2^31 bytes or more |
| CompletionLoop.LoopReturnsBytes | benchmarks/synthetic_cqe_coro_bench.cxx:237-275 | it returns the requested bytes if and only if an operation is below 2^31 bytes, after ceil(bytes/chunk) completions |
| CompletionLoop.LoopLosesBytes | benchmarks/synthetic_cqe_coro_bench.cxx:78-78 | an operation of 2^31 bytes fails and one of 2^32 + 1 bytes returns a single byte |
| CompletionLoop.CompleteKeepsAdding | benchmarks/synthetic_cqe_coro_bench.cxx:122-129 | whichever task completes, the waiter has added exactly the tasks before the first incomplete one |
| CompletionLoop.CompleteAllAdds | benchmarks/synthetic_cqe_coro_bench.cxx:122-129 | the same after any order of completions |
| CompletionLoop.AwaitAllSums | benchmarks/synthetic_cqe_coro_bench.cxx:192-223 | in whatever order the tasks complete, await_all returns the sum of their results modulo 2^64 |
| CopyLoop.AlignUpIsLeast | benchmarks/file_copy_coro_bench.cxx:214-218 | a multiple of the alignment; the least one not below n if and only if the `size_t` sum does not wrap |
| CopyLoop.AlignUpWraps | benchmarks/file_copy_coro_bench.cxx:214-218 | the largest size is aligned to 0 |
| CopyLoop.Files.ReadAt | benchmarks/file_copy_coro_bench.cxx:258-265 | the adversary's read: any non-empty part, zero only at the end of the file, or an error |
| CopyLoop.WriteAll | benchmarks/file_copy_coro_bench.cxx:272-290 | under any short writes the destination stays a prefix of the source, and it fails exactly when a write failed, having otherwise written the whole read |
| CopyLoop.OdirectCopy | benchmarks/file_copy_coro_bench.cxx:220-296 | under failing preparations and any short reads and writes the destination is a prefix of the source; a run is skipped exactly when a call failed, and otherwise copied the first `bytes` bytes or the whole source |
| LspHeaders.FramedText | clangd-diags.py:14-18 | what is sent is "Content-Length: ", the decimal size of the body, two line ends and the body |
| LspFraming.ReadFramed | clangd-diags.py:14-56 | a framed body is read as what it decodes to, whatever follows |
| LspFraming.ReadAllFramed | clangd-diags.py:14-65 | of any bodies sent, those before the first that is not a JSON value other than null are read back in order; then the end is announced, or the thread dies if that body was not JSON |
| LspFraming.Pipe.Read | clangd-diags.py:25-25 | the adversary's read: any non-empty part of what was asked for, everything for a negative number, empty only at the end of file |
| LspFraming.Pipe.ReadLine | clangd-diags.py:37-37 | up to and including the next line feed, or all that is left |
| LspFraming.Pipe.ReadExact | clangd-diags.py:21-30 | under any short reads, exactly the next n bytes, or an error if n is negative or there are fewer |
| LspFraming.Pipe.ReadHeaders | clangd-diags.py:33-49 | the header loop keeps the last Content-Length and passes over other lines |
| LspHeaders.FieldRead | clangd-diags.py:44-49 | a line with the name in any letter case and a value in white space gives that value as the length |
| LspHeaders.FieldForm | clangd-diags.py:44-49 | no other line gives a length |
| LspHeaders.BlockRead | clangd-diags.py:33-49 | the last line that gives a length decides, whatever lines come before it and whatever other lines after it |
| LspHeaders.MessageRead | clangd-diags.py:33-56 | from any such block the announced bytes are read as the body, or it is known why not |
| LspHeaders.NoMessage | clangd-diags.py:33-53 | a block without a length, or without its empty line, gives no message |
| LspHeaders.LengthRead | clangd-diags.py:54-54 | a length is an optional sign and digits, in groups with an underscore between each two, and denotes their number |
| LspHeaders.LengthForm | clangd-diags.py:54-54 | nothing else is a length |
| LspFraming.Pipe.ReadMessage | clangd-diags.py:33-56 | the next message of the stream or why there is none, a body that is null or not JSON included, leaving the rest |
| LspFraming.Pipe.Reader | clangd-diags.py:59-65 | however the pipe cuts the stream, the queue receives exactly the stream's messages up to the first body that is not one, and the thread ends the way the stream does |
| LspMailbox.Mailbox.NextRequestId | clangd-diags.py:114-118 | no two requests get the same id |
| LspMailbox.Mailbox.Arrive | clangd-diags.py:59-65 | the reader may queue any number of messages at any time, in order |
| LspMailbox.Mailbox.TakeResponse | clangd-diags.py:123-137 | all messages in order are: those set aside, none with the id, then the response or the end, then those not looked at; a timeout exactly when the deadline has passed |
| LspMailbox.Mailbox.Requeue | clangd-diags.py:134-135 | the messages set aside go behind the queue, shuffled with what the reader queues meanwhile, each keeping its order |
| LspMailbox.Mailbox.WaitResponse | clangd-diags.py:123-138 | the response is the first message with the id, which belongs to one request only; the queue is then what was unread, followed by a shuffle of what came later and what was set aside; with no arrivals it is rotated at the response; a failed wait loses what was set aside |
| LspMailbox.WaitConserves | clangd-diags.py:123-138 | a successful wait conserves the multiset of messages; after a timeout exactly those set aside are missing |
| LspMailbox.AnswerReturned | clangd-diags.py:133-136 | the message returned is the answer if and only if no request of the server with the same number is queued before it; otherwise it is such a request |
| LspMailbox.WrongMessage | clangd-diags.py:133-136 | the server's own request number 1 is taken for the answer to the client's |
| LspMailbox.WaitKeepsOrder | clangd-diags.py:123-136 | when the response is message k of the queue and nothing arrives, the other messages keep their order if and only if k is the first or the last |
| LspMailbox.OrderBroken | clangd-diags.py:123-136 | whatever arrives, if messages were set aside and others were unread, a later message ends up in front of an earlier one |
| LspMailbox.OrderWithoutStash | clangd-diags.py:123-136 | with nothing set aside the queue stays in the order of arrival |
| LspMailbox.OrderInstance | clangd-diags.py:123-136 | two notifications with the response between them come out the other way round |
| WebSocket.Unmask | benchmarks/cpu_dispatch_impl_bench.cxx:224-231 | in place, byte i is combined with key byte i mod 4 |
| WebSocket.ZerosMasked | benchmarks/cpu_dispatch_impl_bench.cxx:224-231 | masked zeros show the key, over and over from its first byte |
| WebSocket.MaskInvolution | benchmarks/cpu_dispatch_impl_bench.cxx:224-231 | unmasking undoes masking |
| WebSocket.MaskInParts | benchmarks/cpu_dispatch_impl_bench.cxx:224-231 | a payload may be unmasked in two parts if and only if the key read on from the cut agrees with the key from its start |
| WebSocket.CutsAllowed | benchmarks/cpu_dispatch_impl_bench.cxx:224-231 | that is the case at every multiple of four, and with four different key bytes nowhere else |
| WebSocket.HeaderFormat | src/net/realtime.cxx:482-544 | the parser yields a header if and only if the buffer begins with the encoding of an allowed one: masked, known opcode, unfragmented short control frames, shortest length field |
| WebSocket.RefusedHeaders | src/net/realtime.cxx:482-544 | which buffers are refused and how: a control frame that is fragmented or too long is too large; reserved bits or opcodes, a missing mask and a length field longer than need be are protocol errors; only a buffer shorter than its header is incomplete |
| WebSocket.VerdictStands | src/net/realtime.cxx:482-544 | a verdict on a frame header does not change when more bytes arrive |
| WebSocket.TwoStepRead | src/net/realtime.cxx:850-881 | looking at two bytes and then at as many as they call for gives the verdict of the whole buffer and never needs more |
| WebSocket.BuildMaskedText | benchmarks/http_server_bench.cxx:1483-1499 | the builder emits the minimal header it can and the masked payload |
| WebSocket.ParseBuilt | src/net/realtime.cxx:482-544 | what the server's parser makes of a built header, for every payload length |
| WebSocket.FrameRoundTrip | benchmarks/http_server_bench.cxx:1483-1499 | a built frame is received as its payload, leaving what follows, if and only if the payload is shorter than 65536 bytes |
| WebSocket.ServerFrames | src/net/realtime.cxx:331-355 | a header the server sends is refused by its parser as it is, and read back exactly once the mask bit is set and a key follows |
| RedirectChain.Server.constructor | benchmarks/http_client_bench.cxx:482-494 | one prepared redirect per hop, each to the next hop |
| RedirectChain.Server.ServeOne | benchmarks/http_client_bench.cxx:432-456 | every connection is counted and answered by its target; the index into the redirects is always in range |
| RedirectChain.TargetOfRequest | benchmarks/http_client_bench.cxx:251-262 | the server reads the path that the client asked for |
| RedirectChain.TargetRead | benchmarks/http_client_bench.cxx:251-262 | of any request the target is what stands between the first two spaces, and the root if nothing does |
| RedirectChain.AnswerAtHop | benchmarks/http_client_bench.cxx:412-456 | hop i redirects to hop i + 1 below the chain's length and is final from there, by the print and parse inverse |
| RedirectChain.AnswerIs | benchmarks/http_client_bench.cxx:432-456 | "/redirect/" and any text redirects to the successor of the number its leading digits denote, 0 without any, if that is below the chain's length |
| RedirectChain.AnswerElse | benchmarks/http_client_bench.cxx:432-456 | every other target gets the final response |
| RedirectChain.BlockingSend | src/net/client.cxx:1195-1220 | the client's loop ends with the outcome and the number of connections of the chain |
| RedirectChain.ChainFrom | src/net/client_wire.cxx:308-328 | the final response is reached if and only if the budget covers the hops left, over one connection more than those hops; otherwise the limit stops it after one more than the budget |
| RedirectChain.BenchmarkCall | benchmarks/http_client_bench.cxx:788-808 | a benchmark call gets its redirects and final response over hops + 1 connections if and only if hops + 2 fits an `int` |
| RedirectChain.BudgetOverflows | benchmarks/http_client_bench.cxx:794-808 | at the shortest chain whose budget overflows no redirect is followed |
| RedirectChain.RunCalls | benchmarks/http_client_bench.cxx:458-523 | against a client that makes N calls and throws at the first failure, the server loop, which waits for N * (hops + 1) connections, ends by its count exactly when the last call has its final response; if the budget overflowed the first call fails after budget + 1 connections, the others are never made, and the shutdown ends the loop |

## Left out

- The sampling plan of `bench_common.cxx` and the read schedule of `storage_read_bench.cxx`: short arithmetic that would only add easy members.
- Sockets, TLS, io_uring, nghttp2, libpq, files, threads and clocks: they appear as adversaries (short reads and writes, any event order, failure at any call), `*` choices or parameters. Retries after EINTR and deadlines are such choices.
- The fr/* and parallel variants of the increment benchmark's client: the same loop over another reader.
- `pump_all`, request submission and the session itself in the HTTP/2 client: an event script stands for what a pump delivers.
- `recv_until_close`, `recv_response_no_body` and the server side `read_request` loop: simpler forms of the modelled receivers.
- JSON itself: what `json.loads` makes of a body (null, a value, an error) is a parameter; the kind and number of a message are given with it. The driver's commands.
- The client's response header parser, Url parsing and relative redirect resolution: a Location that is an absolute path without query or fragment is the only kind the modelled server sends.
- The compacting variants of the chunked decoder's buffer, and `current_chunk_size`, which nothing reads.
- Fragmented messages, UTF-8 checks, size limits and close handling of the WebSocket connection, and the vectorised unmasking.
- Fixture contents, printing, argument parsing and floating-point statistics.
- Pipelining.RecvNResponses: stated for streams of well-formed responses, up to whatever follows the first `count` of them, because a count of responses means nothing on other streams; TakeResponse describes one turn on any bytes.
- CompletionTable.Completions.Dispatch: a multishot callback that reserves during its own call is not modelled, because the program calls it through a reference into the slot vector that growing the vector invalidates; the other callbacks run after the slot is free, so a later operation of the run stands for what they do.
- CompletionTable.Completions.CancelAll: describes callbacks that leave the table alone; CompletionHistory.AllCancelled covers the others.
- DataRow.ConsumeWire: moving the cursor past the end of the data by a length is taken to work on addresses, although the C++ standard leaves it undefined.
- RedirectChain.RunCalls: errors of `accept4` other than the one that the shutdown causes are retried by the program and not modelled.
- LspFraming.Pipe.ReadMessage: the limit that some Python versions put on the number of digits `int` accepts is not modelled, because it depends on the interpreter.
- WeightedChoice.ChooseRequestIndex: the sum of the weights is taken not to overflow `int`.
