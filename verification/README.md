# Verified models of aiohttp's framing, pooling, routing and state machines

A Dafny 4.11 project beside the vendored copy of aiohttp. It models the parts of the library that
carry state between calls, and proves what they keep over whole runs. `dafny verify dfyconfig.toml`
checks all of it.

## What is modelled

- **Bytes through a connection.** `Streams`, `StreamReaders`, `StreamRuns`: the reader object as a deque with an
  offset, a cursor, chunk ends and two water marks, against one flat byte sequence. `PayloadFraming` is the strict
  payload parser as a byte automaton; `HttpPayloadParsers` is the object, which searches whole buffers and carries
  tails, proved to compute it. `StreamWriters` and `ChunkedRoundTrip` close the circle for the chunked coding;
  `ChunkedGrammar` says the same of every body of the grammar.
  `MessageFraming`, `MessageStreams`, `ClosingCuts`, `HttpParsers`: the same for streams of messages, whose parser
  hands payloads to the parser object and the streams above.
- **The connection pool.** `PoolModel` makes each await-free stretch one step of a transition system;
  `PoolSteps` says of the collections what each step does; `PoolOwnership`, `PoolWakeups`, `PoolFairness` and
  `PoolLimits` prove what all runs keep and where the limits end;
  `Connector` runs the steps on the object's fields and keeps the same of the object.
- **Multipart.** `MultipartFormat` says what a body means as a whole, `MultipartLaws` what every body of the grammar is
  parsed to; `BodyPartReaders` (the sliding window) and
  `MultipartReaders` read it from a stream in any segments, `MultipartWriters` and `Base64` write it,
  `MultipartRoundTrip` puts both ends together, over any framing of the body.
- **Indexes against scans.** `Resources` and `UrlDispatchers` for the router, `CookieMatching` and `CookieJars` for the
  cookie jar with its lazy expiry heap and morsel cache.
- **Smaller machines.** `WebSocketModel` and `WebSocketResponses` for closing and receiving on a server WebSocket,
  `FileRanges` for byte ranges and the file copy loop.

The network, clocks and randomness are parameters: the events a reader will still see are the field `inbox`, of which
every wait consumes an arbitrary prefix; shuffles, the times and the sets of usable connections are arguments. Headers
are what an arbitrary function makes of their lines.

## Where the code and its documentation disagree

The model follows the code. Each of these is a lemma with the exact condition or a concrete run.

- `limit`, "the total number of simultaneous connections", is exceeded when `connect` reuses an idle connection
  (`PoolLimits.LimitKeptUnlessReuse`, `PoolLimits.LimitCanBeExceeded`).
- With a per-host limit below the total one a wake-up can go to a waiter that cannot use it, and another waiter stays
  beside a free slot (`PoolLimits.WakeupsAreSafeIff`).
- `end_http_chunk_receiving` can record an empty chunk, although its comment excludes that
  (`StreamRuns.EmptyChunkReportedIff`).
- What `feed_data` returns depends on how the data are cut: a call that raises loses the messages it had completed,
  "Data after Connection: close" among its errors, and a payload error drops the rest of its call
  (`MessageStreams.CutMattersIff`, `ClosingCuts.ClosingCutMattersIff`).
- `bytes=-0` is answered with the whole file, and any suffix of an empty file with 416
  (`FileRanges.PartialIffSatisfiable`).
- A host that ends in a dot is looked up under the empty domain (`CookieMatching.DomainsExactIff`), and cookie paths
  that end in two slashes match more than they should (`CookieMatching.PathsExactIff`).
- A cookie that is set again without a date keeps its earlier expiry (`CookieJars.LastDateStays`), and a
  host-only cookie loses that mark when one of its name and domain under another path is deleted
  (`CookieJars.HostOnlyIsLostIff`).

## Model

| member | source | states |
|---|---|---|
| Streams.ReadNowaitFlat | lab7&8/aiohttp/aiohttp/streams.py:533-546 | reading n bytes from the pieces takes exactly the next min(n, available) bytes of the flat stream (all of them for -1) and moves the cursor by as much |
| Streams.ReadPieceFlat | lab7&8/aiohttp/aiohttp/streams.py:505-531 | a read of the first piece takes a non-empty prefix of the flat stream, of at most n bytes |
| Streams.UnreadFlat | lab7&8/aiohttp/aiohttp/streams.py:250-267 | bytes given back stand in front of the flat stream again, with the cursor moved back |
| Streams.FeedFlat | lab7&8/aiohttp/aiohttp/streams.py:270-287 | fed bytes are appended to the flat stream, and the recorded chunk ends stay increasing and bounded by the total |
| Streams.ReadChunkFlat | lab7&8/aiohttp/aiohttp/streams.py:441-473 | `readchunk` takes the next bytes of the flat stream, waits only before the end, and returns (b"", False) only at the end of everything |
| Streams.ReadChunkToEnd | lab7&8/aiohttp/aiohttp/streams.py:452-462 | with a chunk end recorded, `readchunk` stops exactly there and loses no later end; an end behind the cursor, the case of the warning, does not arise |
| Streams.ReadChunkPiece | lab7&8/aiohttp/aiohttp/streams.py:464-470 | without a chunk end to report, `readchunk` hands out exactly the first piece, or (b"", False) at the end, or waits |
| Streams.ReadNowaitEnds | lab7&8/aiohttp/aiohttp/streams.py:525-530 | a read lets go of exactly the chunk ends that lie before the cursor then, and keeps the others in their order |
| Streams.EndChunkOk | lab7&8/aiohttp/aiohttp/streams.py:297-325 | the list of chunk ends stays strictly increasing and bounded by `total_bytes` |
| StreamReaders.BaseProtocol.PauseReading | lab7&8/aiohttp/aiohttp/base_protocol.py:50-56 | reading is paused afterwards unless there is no transport |
| StreamReaders.BaseProtocol.ResumeReading | lab7&8/aiohttp/aiohttp/base_protocol.py:58-64 | reading is resumed afterwards unless there is no transport |
| StreamReaders.LineIsUnique | lab7&8/aiohttp/aiohttp/streams.py:351-385 | at most one string is the shortest prefix that ends in the separator, or all of a text without one |
| StreamReaders.LineDone | lab7&8/aiohttp/aiohttp/streams.py:361-383 | what `readuntil` has collected when it stops is that prefix |
| StreamReaders.LineTooLong | lab7&8/aiohttp/aiohttp/streams.py:374-377 | "Chunk too big" is raised only for lines with no separator among their first high-water many bytes |
| StreamReaders.StreamReader.FeedData | lab7&8/aiohttp/aiohttp/streams.py:270-287 | appends to the flat stream and counts; the transport is paused afterwards exactly if it was, or is connected and these data leave more than the high-water mark |
| StreamReaders.StreamReader.UnreadData | lab7&8/aiohttp/aiohttp/streams.py:250-267 | prepends to the flat stream; the only operation that may cross the high-water mark without pausing |
| StreamReaders.StreamReader.BeginHttpChunkReceiving | lab7&8/aiohttp/aiohttp/streams.py:289-295 | raises exactly if data came before the first chunk |
| StreamReaders.StreamReader.EndHttpChunkReceiving | lab7&8/aiohttp/aiohttp/streams.py:297-325 | records the chunk end unless it is the one recorded last; raises exactly if chunks were not begun |
| StreamReaders.StreamReader.Wait | lab7&8/aiohttp/aiohttp/streams.py:327-346 | a coroutine that waits finds the transport reading (flow control cannot deadlock), and waiting changes neither the bytes to come nor the cursor |
| StreamReaders.StreamReader.ReadNowaitChunk | lab7&8/aiohttp/aiohttp/streams.py:505-531 | takes the next bytes and drops passed chunk ends; a paused transport stays so exactly unless it is connected and less than the low-water mark is left |
| StreamReaders.StreamReader.Read | lab7&8/aiohttp/aiohttp/streams.py:387-427 | the next bytes of the body, at most n, none only at its end, all of it for n < 0; healthy streams that end always answer |
| StreamReaders.StreamReader.ReadAny | lab7&8/aiohttp/aiohttp/streams.py:429-439 | everything buffered; nothing only at the end |
| StreamReaders.StreamReader.ReadExactly | lab7&8/aiohttp/aiohttp/streams.py:475-488 | exactly n bytes, or all that was left with the error, which happens exactly when the body is shorter |
| StreamReaders.StreamReader.ReadNowait | lab7&8/aiohttp/aiohttp/streams.py:490-503 | the first n buffered bytes, all for -1 |
| StreamReaders.StreamReader.ReadUntil | lab7&8/aiohttp/aiohttp/streams.py:351-385 | the next bytes up to the separator, or to the end, or an error for a line beyond the high-water mark (one-byte separators) |
| StreamReaders.StreamReader.ReadChunkRound | lab7&8/aiohttp/aiohttp/streams.py:452-473 | one turn of the loop is the flat step of Streams |
| StreamReaders.StreamReader.ReadChunk | lab7&8/aiohttp/aiohttp/streams.py:441-473 | the next bytes with the end-of-chunk flag; (b"", False) only at the end of the body |
| StreamRuns.ReadsReturnTheFeed | lab7&8/aiohttp/aiohttp/streams.py:250-287 | over any run of feeds, give-backs and reads, what was read plus what is buffered is what was fed, and cursor and total count it |
| StreamRuns.ReadChunkRecoversChunks | lab7&8/aiohttp/aiohttp/streams.py:289-325 | under any interleaving of feeding, ending chunks (empty ones too) and `readchunk`, joining the data up to each True flag gives the chunks that counted, in order |
| StreamRuns.NothingMissedAtTheEnd | lab7&8/aiohttp/aiohttp/streams.py:441-473 | once `readchunk` reports the end, every chunk has been recovered |
| StreamRuns.EndRecordedIff | lab7&8/aiohttp/aiohttp/streams.py:307-320 | a chunk end is recorded exactly for a chunk with bytes, or for an empty one when bytes were fed before and every earlier end has been reported |
| StreamRuns.EmptyChunkReportedIff | lab7&8/aiohttp/aiohttp/streams.py:307-320 | exactly then `readchunk` reports an empty chunk, against the comment there; otherwise the empty chunk leaves no trace |
| StreamRuns.EmptyChunkCanCount | lab7&8/aiohttp/aiohttp/streams.py:307-320 | one byte, its chunk end and one `readchunk` lead to a place where an empty chunk is recorded |
| StreamRuns.FlowNeverDeadlocks | lab7&8/aiohttp/aiohttp/streams.py:285-287 | whatever operations are run on a reader, with any events between them: a buffer above high water is paused, a paused one holds at least the low-water mark, and an empty one is never paused |
| PayloadFraming.FeedAppend | lab7&8/aiohttp/aiohttp/http_parser.py:814-946 | parsing a payload byte by byte: feeding a + b is feeding a and then b |
| PayloadFraming.TwoCallsAreOne | lab7&8/aiohttp/aiohttp/http_parser.py:814-946 | two calls of `feed_data` give the mode, the bytes, the chunk ends, the leftover and the error of one call with all the data, on arbitrary input |
| PayloadFraming.FeedLine | lab7&8/aiohttp/aiohttp/http_parser.py:835-861 | a line phase ends at its first CRLF, with the line before it |
| PayloadFraming.FeedChunkEofStuck | lab7&8/aiohttp/aiohttp/http_parser.py:899-907 | after a chunk, data that do not start with CRLF are held back for ever |
| HttpPayloadParsers.HttpPayloadParser.constructor | lab7&8/aiohttp/aiohttp/http_parser.py:756-800 | which of the four modes a payload is read in, and when the parser is done at once |
| HttpPayloadParsers.HttpPayloadParser.ReadChunkSize | lab7&8/aiohttp/aiohttp/http_parser.py:840-882 | the chunk-size line, or the tail kept for the next call, or the error |
| HttpPayloadParsers.HttpPayloadParser.ReadChunkData | lab7&8/aiohttp/aiohttp/http_parser.py:884-897 | chunk data go to the stream; the chunk end is recorded after its last byte |
| HttpPayloadParsers.HttpPayloadParser.TossCrlf | lab7&8/aiohttp/aiohttp/http_parser.py:899-907 | the CRLF after a chunk |
| HttpPayloadParsers.HttpPayloadParser.SkipTrailers | lab7&8/aiohttp/aiohttp/http_parser.py:909-939 | the final CRLF ends the body and hands back the rest; other lines are trailers |
| HttpPayloadParsers.HttpPayloadParser.FeedChunked | lab7&8/aiohttp/aiohttp/http_parser.py:829-939 | the loop over carried tail plus data does what the byte automaton does with the data |
| HttpPayloadParsers.HttpPayloadParser.FeedLength | lab7&8/aiohttp/aiohttp/http_parser.py:817-832 | at most the declared length goes to the stream; the rest is handed back |
| HttpPayloadParsers.HttpPayloadParser.FeedData | lab7&8/aiohttp/aiohttp/http_parser.py:814-946 | in every mode: stream contents, chunk ends, eof, leftover and error are those of the automaton |
| StreamWriters.BudgetCutsTheWhole | lab7&8/aiohttp/aiohttp/http_writer.py:117-125 | a declared length cuts the concatenation of the writes, wherever the writes cut it |
| StreamWriters.WireWithoutLength | lab7&8/aiohttp/aiohttp/http_writer.py:127-133 | without a declared length the writes themselves go out, or their frames if the body is chunked |
| StreamWriters.StreamWriter.Write | lab7&8/aiohttp/aiohttp/http_writer.py:95-137 | the bytes that reach the transport: framed if chunked, cut by the declared length, none for an empty chunk; all writes so far are on the wire and nothing else |
| StreamWriters.StreamWriter.WriteEof | lab7&8/aiohttp/aiohttp/http_writer.py:154-191 | a last chunk and the terminator; nothing the second time |
| StreamWriters.SendChunked | lab7&8/aiohttp/aiohttp/http_writer.py:127-185 | writes followed by `write_eof` send the frames and one terminator |
| ChunkedRoundTrip.HexRoundTrip | lab7&8/aiohttp/aiohttp/http_writer.py:129-130 | the size is printed in lower case without leading zeros, and parses to the same number |
| ChunkedGrammar.DigitValues | lab7&8/aiohttp/aiohttp/http_parser.py:862-868 | the sixteen digits of either case and their values |
| ChunkedGrammar.OnlyDigits | lab7&8/aiohttp/aiohttp/http_parser.py:862-868 | nothing else is a digit of a chunk size |
| ChunkedGrammar.SizeLineTaken | lab7&8/aiohttp/aiohttp/http_parser.py:840-868 | digits of either case, with any extension, are taken as the number they spell (section 7.1 of RFC 9112) |
| ChunkedGrammar.SizeLineRefused | lab7&8/aiohttp/aiohttp/http_parser.py:842-868 | every other size line is refused: a line feed in an extension as such, all else as a wrong size |
| ChunkedRoundTrip.RoundTrip | lab7&8/aiohttp/aiohttp/http_parser.py:835-939 | parsing what the chunked writer sent gives the concatenation of the chunks, the chunk ends, and the trailing bytes untouched (section 7.1 of RFC 9112) |
| ChunkedRoundTrip.EndsExactlyAtTheTerminator | lab7&8/aiohttp/aiohttp/http_parser.py:909-918 | the end of the body is reported by the last terminator byte, neither earlier nor later |
| ChunkedRoundTrip.Receive | lab7&8/aiohttp/aiohttp/http_parser.py:814-939 | for any cutting into `feed_data` calls: all chunks arrive, the call that carries the last terminator byte reports the end, and the bytes behind it come back |
| ChunkedGrammar.EveryBodyIsRead | lab7&8/aiohttp/aiohttp/http_parser.py:835-939 | any body of the chunked grammar, with leading zeros, extensions and trailer lines: its data, its chunk ends, the end behind the last trailer, and what follows untouched |
| MessageFraming.FeedAppend | lab7&8/aiohttp/aiohttp/http_parser.py:302-490 | reading a stream of messages byte by byte: a + b is a and then b |
| MessageFraming.FeedLine | lab7&8/aiohttp/aiohttp/http_parser.py:330-346 | a line is taken at the first CRLF |
| MessageFraming.FeedBody | lab7&8/aiohttp/aiohttp/http_parser.py:461-487 | a payload takes what its parser takes and leaves the rest to the next message |
| MessageStreams.BodyIsRead | lab7&8/aiohttp/aiohttp/http_parser.py:461-487 | data for a payload: all of them while it goes on; up to its end, with the rest for what comes next; and a broken payload takes the rest of the call with it |
| MessageStreams.HeadIsRead | lab7&8/aiohttp/aiohttp/http_parser.py:349-456 | by the header values, for every configuration: the error of a head, or its payload, chunked, of exactly n bytes, until the end, complete or none, each exactly when the headers call for it, whether the connection is upgraded, and that it is to close |
| MessageStreams.ServerRequests | lab7&8/aiohttp/aiohttp/http_parser.py:383-408 | on a server a request has a body exactly if it is chunked or has a length other than 0, and a chunked one is read in chunks |
| MessageFraming.FeedFrom | lab7&8/aiohttp/aiohttp/http_parser.py:302-490 | the outputs of a run from any state are those of a run from the cut, added to what was there |
| MessageStreams.TwoCallsAreOne | lab7&8/aiohttp/aiohttp/http_parser.py:302-490 | two calls hand over what one call with all the data does, and leave its state, if the data raise no error and the first call breaks no payload |
| MessageStreams.SegmentsDoNotMatter | lab7&8/aiohttp/aiohttp/http_parser.py:302-490 | data that one call takes without an error and without breaking a payload come out the same, in messages, payloads, upgrade tail and state, however they are cut into calls |
| MessageStreams.CutMattersIff | lab7&8/aiohttp/aiohttp/http_parser.py:316-337 | for every state and every two pieces: a caller can tell two calls from one exactly if the data raise an error after the first call had completed a message, which one call loses, or the first call ended in a broken payload and the rest is more than blank lines |
| ClosingCuts.ClosingCutMattersIff | lab7&8/aiohttp/aiohttp/http_parser.py:336-337 | behind a closing message some data make the cut visible exactly if the parser is reading lines, or is not upgraded and reads a payload that can still end |
| ClosingCuts.EndsIff | lab7&8/aiohttp/aiohttp/http_parser.py:814-946 | which payload modes can still end: all but until-eof, a chunk-size line that has gone wrong, and bytes after a chunk that do not begin its CRLF |
| MessageStreams.ClosingMatters | lab7&8/aiohttp/aiohttp/http_parser.py:336-337 | a closing message changes nothing until a further line in the same call, which raises "Data after Connection: close" |
| MessageStreams.LineBehindClosing | lab7&8/aiohttp/aiohttp/http_parser.py:331-337 | behind a closing message in the same call, blank lines are skipped and any other line is refused |
| MessageStreams.PipelineComesApart | lab7&8/aiohttp/aiohttp/http_parser.py:302-490 | messages whose headers describe their bodies, sent back to back, come apart into their lines and exactly the bodies sent, whether by length or chunked |
| MessageStreams.PipelineInAnyPieces | lab7&8/aiohttp/aiohttp/http_parser.py:302-490 | the same for any cutting into calls |
| HttpParsers.LineAt | lab7&8/aiohttp/aiohttp/http_parser.py:329-346 | `find` from the current position finds the automaton's next line, or there is none yet |
| HttpParsers.HttpParser.StartMessage | lab7&8/aiohttp/aiohttp/http_parser.py:349-456 | what a complete head leads to, as `MessageStreams.HeadIsRead` says it by the headers: the errors, the upgrade, a new stream with a payload parser, a complete one, or none |
| HttpParsers.HttpParser.TakeLine | lab7&8/aiohttp/aiohttp/http_parser.py:331-353 | blank lines before a message are skipped, lines after a closing one are an error, an empty line completes the head |
| HttpParsers.HttpParser.ReadLine | lab7&8/aiohttp/aiohttp/http_parser.py:327-460 | the next line of the data, or the tail to keep |
| HttpParsers.HttpParser.FeedPayload | lab7&8/aiohttp/aiohttp/http_parser.py:467-485 | the payload parser feeds its own stream and no other; what it left goes to the next message, and an error becomes the exception of the stream |
| HttpParsers.HttpParser.FeedData | lab7&8/aiohttp/aiohttp/http_parser.py:302-490 | the loop over whole buffers hands over the messages of the automaton, each with a stream of its own that has received its payload, the upgrade flag and the data; after an error the stream carried over has what it had received; it terminates |
| PoolOwnership.StepKeeps | lab7&8/aiohttp/aiohttp/connector.py:520-571 | every step keeps ownership, the partition per host, the per-host bound and the bound on placeholders |
| PoolOwnership.EveryReachableStateIsOwned | lab7&8/aiohttp/aiohttp/connector.py:520-717 | in every reachable open state: each protocol is held or idle once, the per-host sets partition `_acquired`, acquired plus idle of a key never exceed `limit_per_host`, placeholders never exceed `limit` |
| PoolWakeups.ReleasingKeepsWake | lab7&8/aiohttp/aiohttp/connector.py:657-694 | giving up a slot wakes somebody, or leaves nobody waiting who could use it |
| PoolSteps.GetStep | lab7&8/aiohttp/aiohttp/connector.py:615-655 | the first idle connection that can be reused is booked, those before it are given up, those behind it stay idle |
| PoolSteps.ConnectStep | lab7&8/aiohttp/aiohttp/connector.py:520-543 | what `connect` does up to its first await: reuse, a slot if there is room, else the end of the queue |
| PoolSteps.ResumeStep | lab7&8/aiohttp/aiohttp/connector.py:590-613 | what a woken waiter does: as a newcomer if there is room, else in front of its queue |
| PoolSteps.DropStep | lab7&8/aiohttp/aiohttp/connector.py:683-694 | giving up a slot unbooks exactly that connection |
| PoolSteps.ReturnStep | lab7&8/aiohttp/aiohttp/connector.py:696-726 | a connection that is given back is the newest idle one of its host, exactly unless it is closed |
| PoolSteps.CleanupStep | lab7&8/aiohttp/aiohttp/connector.py:380-417 | exactly the usable idle connections stay, in their old order, and no key without one |
| PoolSteps.WakeStep | lab7&8/aiohttp/aiohttp/connector.py:657-681 | a release wakes the first waiter of a host that has room, or nobody, and nobody only if no host with room has a waiter |
| PoolWakeups.RunKeepsWake | lab7&8/aiohttp/aiohttp/connector.py:573-694 | no run loses a wake-up while one limit counts for every host |
| PoolWakeups.NoWakeupIsLost | lab7&8/aiohttp/aiohttp/connector.py:495-694 | with `limit_per_host == 0` or at least a non-zero `limit`: whoever waits finds no more slots free than waiters woken, in every reachable state |
| PoolFairness.StepChange | lab7&8/aiohttp/aiohttp/connector.py:584-591 | a step changes a queue at one end only: newcomers behind, losers in front, and the first leaves only by being woken |
| PoolFairness.QueueKeepsItsOrder | lab7&8/aiohttp/aiohttp/connector.py:573-613 | in every run, those of a queue that still wait are the end of it, in their order, with only losers in front and newcomers behind |
| PoolFairness.NobodyIsOvertaken | lab7&8/aiohttp/aiohttp/connector.py:657-681 | while somebody waits, so do all who waited behind |
| PoolFairness.LosersChangePlaces | lab7&8/aiohttp/aiohttp/connector.py:588-591 | of two coroutines woken in vain, the one that resumes last waits in front of the other |
| PoolLimits.LimitKeptUnlessReuse | lab7&8/aiohttp/aiohttp/connector.py:520-539 | a step from within `limit` stays within it, except exactly a `connect` that reuses an idle connection while all slots are taken |
| PoolLimits.LimitCanBeExceeded | lab7&8/aiohttp/aiohttp/connector.py:525-528 | a run with `limit == 1` that has two connections acquired |
| PoolLimits.LostWakeup | lab7&8/aiohttp/aiohttp/connector.py:657-681 | for all other limits a run in which a waiter is left beside a free slot |
| PoolLimits.WakeupsAreSafeIff | lab7&8/aiohttp/aiohttp/connector.py:573-694 | no reachable state loses a wake-up if and only if one limit counts for every host |
| Connector.BaseConnector.Safe | lab7&8/aiohttp/aiohttp/connector.py:495-571 | what every method keeps of the object: one owner for each connection, `limit_per_host` over acquired and idle together, placeholders within `limit`, and no lost wake-up while one limit counts |
| Connector.BaseConnector.AvailableConnections | lab7&8/aiohttp/aiohttp/connector.py:495-518 | at least 1 exactly if neither limit is reached, and then as many more connections to the host keep within both |
| Connector.BaseConnector.Get | lab7&8/aiohttp/aiohttp/connector.py:615-655 | the first usable idle connection of the host is handed out and booked, those before it are gone, those behind it stay idle; without one nothing idle is left; no other host changes |
| Connector.BaseConnector.ReleaseWaiter | lab7&8/aiohttp/aiohttp/connector.py:657-681 | wakes the first waiter of the first shuffled host that has room, and nobody else |
| Connector.BaseConnector.ReleaseAcquired | lab7&8/aiohttp/aiohttp/connector.py:683-694 | unbooks a connection and wakes a waiter; nothing once closed |
| Connector.BaseConnector.Release | lab7&8/aiohttp/aiohttp/connector.py:696-726 | unbooks, and files the connection as idle unless it is to be closed |
| Connector.BaseConnector.Connect | lab7&8/aiohttp/aiohttp/connector.py:520-543 | the first usable idle connection; without one a placeholder if there is room, else the last place of the queue; the invariants of the pool hold again |
| Connector.BaseConnector.Resume | lab7&8/aiohttp/aiohttp/connector.py:590-613 | a woken waiter gets the first usable idle connection or a placeholder if there is room, else it queues again in front; the invariants of the pool hold again |
| Connector.BaseConnector.Created | lab7&8/aiohttp/aiohttp/connector.py:549-571 | the protocol is booked under its own host and no other, the placeholder is gone, the number of slots in use is the same, and the invariants of the pool hold again; a closed connector is left alone |
| Connector.BaseConnector.CreationFails | lab7&8/aiohttp/aiohttp/connector.py:555-558 | the placeholder is unbooked, its slot is free or has woken the first waiter of a host with room, nothing idle changes, and the invariants of the pool hold again |
| Connector.BaseConnector.Return | lab7&8/aiohttp/aiohttp/connector.py:696-726 | the connection is unbooked, may wake the first waiter of a host with room, and is idle, last in its queue, exactly if it is not to be closed; the invariants of the pool hold again |
| Connector.BaseConnector.Cleanup | lab7&8/aiohttp/aiohttp/connector.py:380-417 | for every host exactly the idle connections that can still be used stay, in their old order, and no host keeps an empty queue |
| Connector.BaseConnector.Close | lab7&8/aiohttp/aiohttp/connector.py:447-485 | empties the pool, the acquired set and the queues, once |
| MultipartFormat.RoundTrip | lab7&8/aiohttp/aiohttp/multipart.py:988-1013 | reading the parts that were written gives the same bodies in order and then the end, by length or by boundary; a body of declared length may hold the delimiter |
| MultipartFormat.DelimiterAfterBody | lab7&8/aiohttp/aiohttp/multipart.py:398-403 | the delimiter after a body that holds none is the first one |
| MultipartFormat.HeadersReadBack | lab7&8/aiohttp/aiohttp/multipart.py:769-779 | header lines are read back, and what follows the blank line is next |
| MultipartLaws.PreambleIsSkipped | lab7&8/aiohttp/aiohttp/multipart.py:732-744 | lines that are no boundary, in front of a body, do not change what it is parsed to (section 5.1.1 of RFC 2046) |
| MultipartLaws.BoundaryIsTaken | lab7&8/aiohttp/aiohttp/multipart.py:732-750 | a boundary line may end in any blanks, first or later |
| MultipartLaws.LastBoundaryEnds | lab7&8/aiohttp/aiohttp/multipart.py:737-767 | the last boundary ends the body, at once in place of the first one, and behind parts exactly if the two lines behind it are not too long |
| MultipartLaws.NoBoundaryIsMalformed | lab7&8/aiohttp/aiohttp/multipart.py:734-767 | behind a part any other line is an error, and so is a line that is too long, or the end before the first boundary |
| MultipartLaws.HeadersAre | lab7&8/aiohttp/aiohttp/multipart.py:769-779 | the headers are what stands between the blanks of each line, up to a blank line |
| MultipartLaws.LongHeaderIsBad | lab7&8/aiohttp/aiohttp/multipart.py:769-779 | a header line that is too long is an error |
| MultipartLaws.BodyEndIs | lab7&8/aiohttp/aiohttp/multipart.py:321-366 | a body ends at its length if CRLF follows, or without a length in front of the first CRLF and boundary, and otherwise has no end |
| MultipartLaws.BadPartIsMalformed | lab7&8/aiohttp/aiohttp/multipart.py:644-677 | headers that are none, or a body without an end, make the whole body malformed |
| MultipartLaws.EveryBodyIsParsed | lab7&8/aiohttp/aiohttp/multipart.py:644-677 | any body with a preamble, parts with blanks around boundaries and headers, a last boundary and an epilogue is parsed to the bodies of its parts, in order |
| BodyPartReaders.WindowSearch | lab7&8/aiohttp/aiohttp/multipart.py:396-403 | a search of the two-chunk window finds the first delimiter of the whole rest, or shows that it ends behind the window |
| BodyPartReaders.WindowMoves | lab7&8/aiohttp/aiohttp/multipart.py:396-420 | one move of the window lets go only bytes before the delimiter, and ends exactly at it |
| BodyPartReaders.BodyPartReader.NextChunk | lab7&8/aiohttp/aiohttp/multipart.py:386-394 | the second chunk holds a delimiter's length or everything; the assertion on reading after eof fails only at the third time |
| BodyPartReaders.BodyPartReader.ReadChunkFromStream | lab7&8/aiohttp/aiohttp/multipart.py:378-420 | for any segmentation: the chunk is the next part of the body, the stream is left at the boundary line at its end, and no assertion fails when a delimiter is there |
| BodyPartReaders.BodyPartReader.ReadChunkFromLength | lab7&8/aiohttp/aiohttp/multipart.py:368-376 | the next bytes within the declared length |
| BodyPartReaders.BodyPartReader.ExpectCrlf | lab7&8/aiohttp/aiohttp/multipart.py:359-365 | the line after a body is CRLF, or it is an error |
| BodyPartReaders.BodyPartReader.ReadChunk | lab7&8/aiohttp/aiohttp/multipart.py:321-366 | a chunk of the body, the last one with the CRLF behind it |
| BodyPartReaders.BodyPartReader.Read | lab7&8/aiohttp/aiohttp/multipart.py:305-319 | the body is everything before the place a search of the whole stream gives, the stream is left behind the CRLF there, and reading fails exactly if there is no such place |
| MultipartReaders.ReadLine | lab7&8/aiohttp/aiohttp/streams.py:348-349 | `readline` is the first line of all that is to come, and fails exactly for lines that are too long |
| MultipartReaders.MultipartReader.ReleaseLastPart | lab7&8/aiohttp/aiohttp/multipart.py:781-787 | an unread part is read to its end, or fails if it has none |
| MultipartReaders.MultipartReader.SkipToBoundary | lab7&8/aiohttp/aiohttp/multipart.py:732-744 | skips lines up to the first boundary |
| MultipartReaders.MultipartReader.ReadBoundary | lab7&8/aiohttp/aiohttp/multipart.py:746-767 | the next line is the boundary or the last boundary, or it is an error |
| MultipartReaders.MultipartReader.ReadHeaders | lab7&8/aiohttp/aiohttp/multipart.py:769-779 | the stripped lines up to a blank one |
| MultipartReaders.MultipartReader.Next | lab7&8/aiohttp/aiohttp/multipart.py:644-677 | the next part, the end or the error that the whole rest of the stream calls for, also when the part before was not read |
| MultipartReaders.ReadAll | lab7&8/aiohttp/aiohttp/multipart.py:644-677 | reading part after part from a stream in any segments returns what parsing the whole body returns |
| MultipartWriters.MultipartWriter.Size | lab7&8/aiohttp/aiohttp/multipart.py:959-976 | unknown exactly if a part is encoded or unsized, else the number of bytes `write` sends |
| MultipartWriters.MultipartWriter.Write | lab7&8/aiohttp/aiohttp/multipart.py:988-1013 | the bytes given to the writer, part by part, with the closing boundary if asked for; for every writer |
| MultipartWriters.WrittenReadsBack | lab7&8/aiohttp/aiohttp/multipart.py:988-1013 | what `write` sent parses to what the payloads wrote, in base64 where the part is encoded, in order, given the header lines of each part |
| MultipartRoundTrip.Send | lab7&8/aiohttp/aiohttp/multipart.py:988-1013 | the body reaches the wire as it is, or chunked such that a payload parser gets exactly it back, or whole within a declared length that is its size |
| MultipartRoundTrip.ReadBack | lab7&8/aiohttp/aiohttp/multipart.py:644-677 | writer, stream and reader together: there are as many bodies as parts, and each, once the encoding of its part is undone, is what its payload wrote |
| Base64.EncodeDecodes | lab7&8/aiohttp/aiohttp/multipart.py:523-527 | decoding the base64 of a body gives the body |
| Base64.EncodeIs | lab7&8/aiohttp/aiohttp/multipart.py:1039-1067 | character i stands for bits 6i to 6i + 5 of the data, in the alphabet of section 4 of RFC 4648, with 0 bits behind the end, and is "=" where no data are left |
| Base64.EncodeLength | lab7&8/aiohttp/aiohttp/multipart.py:1039-1067 | the text is as long as whole groups of four characters for each three bytes begun |
| Base64.EncodeAppend | lab7&8/aiohttp/aiohttp/multipart.py:1057-1067 | whole groups of three bytes can be encoded ahead of the rest |
| Base64.MultipartPayloadWriter.Write | lab7&8/aiohttp/aiohttp/multipart.py:1050-1067 | what has been passed on is the base64 of all whole groups so far; at most two bytes are held back; over every writer |
| Base64.MultipartPayloadWriter.WriteEof | lab7&8/aiohttp/aiohttp/multipart.py:1039-1048 | what has been passed on is the base64 of everything written |
| Base64.EncodeTo | lab7&8/aiohttp/aiohttp/multipart.py:1039-1067 | for any splitting into writes the base64 of the whole input is passed on, over every writer (section 4 of RFC 4648) |
| Resources.KeyIsWalked | lab7&8/aiohttp/aiohttp/web_urldispatcher.py:1130-1139 | a resource that matches a path has its index key among the parts walked for that path |
| Resources.StrippedIsWalked | lab7&8/aiohttp/aiohttp/web_urldispatcher.py:1041-1051 | every prefix that ends before a slash is walked, without its trailing slashes |
| Resources.WalkShrinks | lab7&8/aiohttp/aiohttp/web_urldispatcher.py:1040-1051 | later parts of the walk are shorter, so longer keys are tried first |
| Resources.MatchesIff | lab7&8/aiohttp/aiohttp/web_urldispatcher.py:452-502 | a dynamic path is matched exactly if it is the literals with a string between them that each variable accepts |
| Resources.ServesIff | lab7&8/aiohttp/aiohttp/web_urldispatcher.py:384-390 | a resource serves a request exactly if its path matches and it has a route for the method or for any method; a static one answers at its prefix and below it, for its own methods only |
| Resources.KeyIs | lab7&8/aiohttp/aiohttp/web_urldispatcher.py:1130-1139 | the key is the path, or the text in front of the first variable up to its last slash, without slashes at the end, and "/" if nothing is left |
| Resources.FrozenMatches | lab7&8/aiohttp/aiohttp/web_urldispatcher.py:414-416 | freezing changes what is matched for the empty path only, and no method |
| Resources.PrefixedMatches | lab7&8/aiohttp/aiohttp/web_urldispatcher.py:418-422 | a prefixed resource matches exactly the prefixed paths, for the same methods |
| UrlDispatchers.UrlDispatcher.RegisterResource | lab7&8/aiohttp/aiohttp/web_urldispatcher.py:1091-1128 | the resource is listed last and filed last in the bucket of its key |
| UrlDispatchers.UrlDispatcher.IndexResource | lab7&8/aiohttp/aiohttp/web_urldispatcher.py:1141-1147 | the resource is appended to the bucket of its key; other buckets stay |
| UrlDispatchers.UrlDispatcher.UnindexResource | lab7&8/aiohttp/aiohttp/web_urldispatcher.py:1149-1152 | its first entry leaves the bucket of its key; other buckets stay |
| UrlDispatchers.UrlDispatcher.AddPrefixToResources | lab7&8/aiohttp/aiohttp/web_urldispatcher.py:765-772 | all resources are prefixed, and each is once in the bucket of its new key, in registration order |
| UrlDispatchers.UrlDispatcher.Freeze | lab7&8/aiohttp/aiohttp/web_urldispatcher.py:414-416 | empty paths become "/" and the index still fits |
| UrlDispatchers.FirstHitIsBest | lab7&8/aiohttp/aiohttp/web_urldispatcher.py:1031-1051 | the first hit of the walk is the hit with the longest key and the earliest registration |
| UrlDispatchers.WalkedInVain | lab7&8/aiohttp/aiohttp/web_urldispatcher.py:1029-1068 | when the walk finds nothing, no resource serves the request, and the allowed methods are those of all resources that match |
| UrlDispatchers.UrlDispatcher.TryBucket | lab7&8/aiohttp/aiohttp/web_urldispatcher.py:1042-1047 | the first hit of a bucket, or the methods its matching resources allow |
| UrlDispatchers.UrlDispatcher.Resolve | lab7&8/aiohttp/aiohttp/web_urldispatcher.py:1029-1068 | the indexed lookup answers as a scan of all resources does |
| CookieMatching.DomainsAre | lab7&8/aiohttp/aiohttp/cookiejar.py:340-346 | the domains looked up are the host and what begins behind one of its dots |
| CookieMatching.DomainsExactIff | lab7&8/aiohttp/aiohttp/cookiejar.py:380-393 | they are the domains that domain-match exactly if the host does not end in a dot (section 5.1.3 of RFC 6265) |
| CookieMatching.DomainsGrow | lab7&8/aiohttp/aiohttp/cookiejar.py:344-346 | longer domains come later |
| CookieMatching.PathsAre | lab7&8/aiohttp/aiohttp/cookiejar.py:348-349 | the paths looked up are those that match at a "/" boundary |
| CookieMatching.PathsGrow | lab7&8/aiohttp/aiohttp/cookiejar.py:348-349 | longer paths come later |
| CookieMatching.PathsExactIff | lab7&8/aiohttp/aiohttp/cookiejar.py:361-363 | the jar's path rule is path matching exactly for cookie paths that do not end in two slashes (section 5.1.4 of RFC 6265) |
| CookieJars.CookieJar.DeleteCookies | lab7&8/aiohttp/aiohttp/cookiejar.py:212-217 | exactly these keys leave cookies, cache and expirations, with the host-only flags of their domain and name |
| CookieJars.HostOnlyIsLostIff | lab7&8/aiohttp/aiohttp/cookiejar.py:212-217 | a host-only cookie that stays goes out to another host exactly if a deleted one had its domain and its name |
| CookieJars.CookieJar.ExpireCookie | lab7&8/aiohttp/aiohttp/cookiejar.py:219-225 | the expiry is recorded and has an entry in the heap |
| CookieJars.CookieJar.Compact | lab7&8/aiohttp/aiohttp/cookiejar.py:179-191 | the compaction keeps exactly the entries that are current |
| CookieJars.CookieJar.PopDue | lab7&8/aiohttp/aiohttp/cookiejar.py:193-207 | popping what is due finds exactly the keys whose recorded expiry has come, in spite of stale and double entries |
| CookieJars.CookieJar.DoExpiration | lab7&8/aiohttp/aiohttp/cookiejar.py:169-210 | exactly the cookies whose recorded expiry has come are removed |
| CookieJars.CookieJar.ClearPicked | lab7&8/aiohttp/aiohttp/cookiejar.py:139-151 | what is due or picked is removed, and the heap still covers the rest |
| CookieJars.CookieJar.Clear | lab7&8/aiohttp/aiohttp/cookiejar.py:130-137 | everything goes |
| CookieJars.CookieJar.UpdateOne | lab7&8/aiohttp/aiohttp/cookiejar.py:239-297 | where a cookie is filed, when it expires, and that it is refused for a foreign domain; the cache stays right |
| CookieJars.NormalisedIs | lab7&8/aiohttp/aiohttp/cookiejar.py:244-276 | the one way to store a cookie: its domain without a leading dot, or the host if it names none or one that ends in a dot; its path, or the directory of the response; no unusable age or date |
| CookieJars.FiledIs | lab7&8/aiohttp/aiohttp/cookiejar.py:257-297 | a cookie is filed exactly if its domain is the host that set it or domain-matches it and the host is no IP address, or the host is unknown, under that domain and the path without slashes at its end (section 5.1.3 of RFC 6265) |
| CookieJars.ChangedIsFiled | lab7&8/aiohttp/aiohttp/cookiejar.py:292-297 | whatever is stored and was not there before is a cookie of these that was filed under its key |
| CookieJars.FlagsAre | lab7&8/aiohttp/aiohttp/cookiejar.py:246-255 | a name is marked for the host alone exactly by a cookie that names no domain, or one that ends in a dot |
| CookieJars.AgeIsKept | lab7&8/aiohttp/aiohttp/cookiejar.py:278-290 | a cookie with an age of n seconds is due exactly from n seconds on, or at the greatest time |
| CookieJars.LastCookieStays | lab7&8/aiohttp/aiohttp/cookiejar.py:292-297 | of all cookies set, the last one filed under a key is the one that is stored, as `CookieJars.FiledIs` says; a key under which none is filed keeps what it had |
| CookieJars.LastDateStays | lab7&8/aiohttp/aiohttp/cookiejar.py:269-290 | the recorded expiry of a key is that of the last cookie filed there that gave one: its age, capped, or without an age its date, if that is one and not 0 |
| CookieJars.CookieJar.UpdateCookies | lab7&8/aiohttp/aiohttp/cookiejar.py:227-299 | the cookies set in order, less what has expired by then; whatever is new or changed has the host as its domain, or one that the host domain-matches and is then no IP address; and every cookie with such a domain is stored unless a later one takes its key or it has expired |
| CookieJars.CookieJar.Build | lab7&8/aiohttp/aiohttp/cookiejar.py:368-376 | the cached morsel is the one that would be built from the stored cookie |
| CookieJars.CookieJar.AddPair | lab7&8/aiohttp/aiohttp/cookiejar.py:353-376 | the eligible cookies of one domain and path replace those of shorter ones |
| CookieJars.CookieJar.EligibleIsMatched | lab7&8/aiohttp/aiohttp/cookiejar.py:330-366 | the cookies reached by enumeration are those that domain-match, path-match and pass the flags; an IP address matches itself alone, and only if the jar trusts addresses |
| CookieJars.CookieJar.FilterCookies | lab7&8/aiohttp/aiohttp/cookiejar.py:301-377 | by name, the eligible cookie with the longest domain and then the longest path, else the shared one; expired cookies are gone |
| WebSocketModel.RunKeeps | lab7&8/aiohttp/aiohttp/web_ws.py:437-580 | what every interleaving of `close`, `receive`, ping failures, `_cancel` and messages keeps |
| WebSocketModel.CloseIsSafe | lab7&8/aiohttp/aiohttp/web_ws.py:437-490 | in every reachable state the writer was closed at most once, at most one task is inside `reader.read()`, and the assertion on `_close_wait` has not failed |
| WebSocketModel.ParkedCloseIsReleased | lab7&8/aiohttp/aiohttp/web_ws.py:468-475 | a `close` parked on `_close_wait` can go on, or there is a receiver that can run and releases it however its next stretch ends |
| WebSocketModel.QueueIsConserved | lab7&8/aiohttp/aiohttp/web_ws.py:508-580 | over every run, what was queued at first and put is what was taken, in order, and what is still queued |
| WebSocketModel.AllDataIsReturned | lab7&8/aiohttp/aiohttp/web_ws.py:558-561 | over every run, the data messages taken by receivers are exactly those they return, in order |
| WebSocketModel.DataIsReturned | lab7&8/aiohttp/aiohttp/web_ws.py:558-561 | a receiver that has taken a data message returns it in the same stretch and is done |
| WebSocketResponses.WebSocketResponse.BeginClose | lab7&8/aiohttp/aiohttp/web_ws.py:441-449 | the first caller alone gets past the check, and the writer is closed for the first and only time; later callers change nothing |
| WebSocketResponses.WebSocketResponse.AfterWrite | lab7&8/aiohttp/aiohttp/web_ws.py:449-453 | once its frame is written, `close` drains if that was asked for |
| WebSocketResponses.WebSocketResponse.CloseFails | lab7&8/aiohttp/aiohttp/web_ws.py:454-461 | a `close` whose writing, draining or reading raises or is cancelled ends with the code 1006 |
| WebSocketResponses.WebSocketResponse.ParkedCloseFails | lab7&8/aiohttp/aiohttp/web_ws.py:464-471 | a cancelled wait for a receiver leaves its future done |
| WebSocketResponses.WebSocketResponse.AfterDrain | lab7&8/aiohttp/aiohttp/web_ws.py:464-479 | the assertion on `_close_wait` holds; if a receiver is inside `read`, it can run and releases this `close` however its stretch ends; else this `close` alone reads |
| WebSocketResponses.WebSocketResponse.AfterCloseWait | lab7&8/aiohttp/aiohttp/web_ws.py:475-483 | after the receiver has left, this `close` alone reads, unless the peer has closed |
| WebSocketResponses.WebSocketResponse.CloseRead | lab7&8/aiohttp/aiohttp/web_ws.py:481-490 | takes the messages one by one, alone, up to the close message, whose code is kept |
| WebSocketResponses.WebSocketResponse.ReceiveTop | lab7&8/aiohttp/aiohttp/web_ws.py:513-528 | whoever is let into `read` is there alone; nobody is when closed, closing or read by another task |
| WebSocketResponses.WebSocketResponse.ReceiveRead | lab7&8/aiohttp/aiohttp/web_ws.py:526-580 | by the kind of the message: data are returned and change no flag; a ping is answered and a pong skipped exactly with `autoping`; a closing message sets closing and 1000; a close message its own code, and closes without a drain exactly with `autoclose` on an open connection; by the ending, if it raised: the code 1000, that of the error, or 1006, and a close with drain; every waiting `close` can go on |
| WebSocketResponses.WebSocketResponse.PongSent | lab7&8/aiohttp/aiohttp/web_ws.py:574-576 | after its pong, `receive` goes back to its top |
| WebSocketResponses.WebSocketResponse.ReceiveFails | lab7&8/aiohttp/aiohttp/web_ws.py:525-543 | a receiver that is cancelled or times out inside `read` takes the flag back and lets every waiting `close` go on |
| WebSocketResponses.WebSocketResponse.HandlePingPongException | lab7&8/aiohttp/aiohttp/web_ws.py:187-195 | closed with 1006 and without a frame; a receiver that is inside `read` of a connection not closing finds one message more; nothing changes when already closed |
| WebSocketResponses.WebSocketResponse.Cancel | lab7&8/aiohttp/aiohttp/web_ws.py:616-622 | the reading is ended, so that whoever is inside `read` can leave it, and the connection counts as closing |
| FileRanges.HttpRange | lab7&8/aiohttp/aiohttp/web_request.py:599-632 | the slice of a Range header, and exactly when it is refused |
| FileRanges.PrepareOpenFile | lab7&8/aiohttp/aiohttp/web_fileresponse.py:300-380 | 200 with the whole file exactly without a range or when If-Range sets it aside; 416 exactly for a header that cannot be read, a first byte behind the end or a suffix of an empty file; otherwise 206; no other status |
| FileRanges.WholeFileIff | lab7&8/aiohttp/aiohttp/web_fileresponse.py:300-312 | status 200 means the whole file, and is chosen exactly when there is no range to go by |
| FileRanges.RefusedIff | lab7&8/aiohttp/aiohttp/web_fileresponse.py:312-380 | exactly when a range is refused, and that there are no other answers than 200, 206 and 416 |
| FileRanges.PartialIsInside | lab7&8/aiohttp/aiohttp/web_fileresponse.py:344-380 | a 206 response is not empty and lies in the file |
| FileRanges.PartialIffSatisfiable | lab7&8/aiohttp/aiohttp/web_fileresponse.py:344-380 | 206 is chosen exactly for satisfiable ranges if and only if the range is neither an empty suffix of a non-empty file nor a suffix of an empty one (section 14.1.2 of RFC 9110) |
| FileRanges.PartialIsSelected | lab7&8/aiohttp/aiohttp/web_fileresponse.py:344-363 | the bytes sent are those the range selects |
| FileRanges.SendfileFallback | lab7&8/aiohttp/aiohttp/web_fileresponse.py:112-131 | for every chunk size exactly the chosen bytes go out, although the first read may overshoot |

## Left out

- Lax parsing mode and the C parser: lax mode strips an optional CR only at some call boundaries.
- `feed_eof` of the two parsers, `parse_message` and the header parser: a message is what an arbitrary function makes of the lines.
- HttpParsers.HttpParser.FeedData: an exception ends the parser's use; the messages of the call that raised are lost, as in the source.
- StreamReaders.StreamReader.ReadUntil: one-byte separators only; the source searches each buffered piece by itself, so a longer separator across two pieces is missed.
- StreamReaders.StreamReader.Wait: cancellation and timers while waiting, the error for a second coroutine that waits, and the exception that the source stores for later readers, except that a reader which has failed raises.
- Compression in writer, payloads and parts, and quoted-printable: foreign codecs.
- PoolWakeups.NoWakeupIsLost: runs without cancellation, timeouts, tracing hooks and proxy tunnels; a cancelled waiter that was woken drops its wake-up.
- Connection objects, keep-alive timers and closed SSL transports of the connector; which idle connections are usable is an argument.
- BodyPartReaders.BodyPartReader.ReadChunkFromStream: successive chunk sizes that do not shrink below the chunk held back, as with the fixed size of `read`; parts without a transfer encoding, whose alignment to groups of four is not modelled.
- MultipartRoundTrip.ReadBack: parts in base64 are read as the bytes that went out; the reader's alignment of their chunks to groups of four is not modelled.
- MultipartReaders.MultipartReader.Next: nested multipart readers, and the `_charset_` part of form data; lengths are not negative.
- Resources.KeyIsWalked: variables accept arbitrary sets of strings; back references between them, the values they bind and percent-encoding are not modelled.
- UrlDispatchers.UrlDispatcher.Resolve: sub-applications as candidates, by prefix or by domain, which answer for themselves; their resources are modelled as re-prefixed ones.
- UrlDispatchers.UrlDispatcher.RegisterResource: positions stand for identity, so one resource object that is registered twice, and would be re-prefixed twice, is not modelled.
- CookieJars.CookieJar.UpdateCookies: one reading of the clock for the whole call; date parsing and `save`/`load`; `heapq` is taken by its contract and the nested dictionaries are one map.
- WebSocketModel.CloseIsSafe: heartbeat timers, frames and the handshake; a stretch that the source runs on without suspending may be interrupted in the model, and a read that has been ended may return a message or raise, so the runs of the source are among those of the model.
- FileRanges.HttpRange: the regular expression; the header is the two numbers it yields. If-Range is an argument, and the file does not change while it is copied.
- The client side of WebSockets, `ClientSession`, `web_protocol`, resolvers, static files on disk, and the lab scripts.
