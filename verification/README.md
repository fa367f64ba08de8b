# Verified models of tensorpc

tensorpc is a Python library for remote procedure calls and user interfaces. This project models
its codecs, stream reassemblers and structure-walking algorithms in Dafny and proves properties
of them for all inputs, all runs or all reachable states. `dafny verify dfyconfig.toml` checks
everything.

Code that changes state step by step is modelled by classes and loops and proved against
specification functions; code made of expressions and recursion is modelled by functions.

| module | what it models |
|---|---|
| Bytes, Decimal | byte strings, concatenation, ceiling division; decimal numerals |
| ShellEvents, ShellSession | the tokenizer that finds shell events, bells and lines in an SSH stream arriving in arbitrary chunks |
| ShellText, ShellReport | what an event and a piece are on the bytes alone; what is reported of a piece, and that it gives the bytes back |
| ShellEof, ShellProgress, ShellPrompt | what the end of file, a marker without an event, and a split prompt end do to it |
| WsCodec, WsDecoder | the websocket frame encoder and its decoder |
| Replies, Client | the out-of-order chunk collector and the websocket client with many concurrent calls and timeouts |
| PbStream, PbRoundTrip | the gRPC frame stream, its decoder object, and any number of calls through one decoder |
| Skeleton, Rpc | separating arrays from nested payloads and putting them back; payloads end to end |
| Relay | calls forwarded through a list of servers |
| SharedMemory | the aligned shared-memory layout |
| TypeGraph | the generator of the dataclasses a type leads to, over cyclic graphs |
| TreeId, FlowTree | length-prefixed path ids, and the nested flow addressed by them |
| Folders | balanced division of large nodes into folders |
| SourceLines, UniqueNames | source segments from cached lines; allocation of unused names |

## Where the code does less than it seems to

These are results, each with the exact condition or a concrete input:

- The argument of PROMPT_END depends on how the network cuts the stream (`ShellPrompt.PromptArgumentIff`). The text in front of the prompt end is lost, in part or whole, when it holds a bell in front of the first marker, or when a chunk ends so that the reader cuts before it has the prompt end: behind a newline or an overlong carriage-return run in that text, or between the marker and the bell (`ShellPrompt.SplitBehindLineLosesText`, `ShellPrompt.SplitInMarkerLosesText`). Apart from that and from the next case the events do not, and need no assumption on the stream.
- The result of a read that leaves the buffer empty after the end of file has been received is not searched for an event, so a stream may lose its last event (`ShellEof.LastEventLostIff`, `ShellSession.Session.HandleStream`).
- The argument that a PROMPT_END may carry itself is not reported; the text in front of it takes its place (`ShellReport.HandleResultTells`).
- A start marker that begins no event holds back everything behind it until a complete event arrives (`ShellProgress.WaitIff`, `ShellProgress.StarvedRun`).
- An error frame, or a cancelled caller, leaves the reply in the dictionary, so a later result for that call resolves the future twice and ends the receive loop (`Replies.ResolvedTwiceIff`, `Replies.ErrorOrCancelCameFirst`, `Replies.LateResultCrashes`).
- The header message of a chunked reply may be longer than the chunk size (`WsCodec.OnlyTheHeaderMayExceed`).
- A second chunked header empties the slots of a reply but not its counter (`Replies.CounterStep`).
- A chunk that arrives twice, or that has no slot, ends the receive loop (`Replies.ChunkCrashes`).
- A decoder that is asked for more bytes than the frames hold never returns (`WsDecoder.ReadArray`); on what the encoder sends this does not happen.
- Separation loses dictionaries that use the reserved key, which for pickled messages is the empty string, and special leaves with other flags (`Skeleton.SeparationRoundTrip`, `Skeleton.ReservedKeyIsLost`).
- The writer to shared memory checks the size without padding (`SharedMemory.SizeCheckIsExactIff`, `SharedMemory.SizeCheckMissesPadding`); an assignment fails later, when the arrays in front of it are in the memory (`SharedMemory.WriteShared`).
- `set_parts_inplace` with no parts writes a text that cannot be decoded, and with a splitter of another length one that the id itself cannot decode again (`TreeId.InplaceDecodesIff`, `TreeId.InplaceCopiesIff`).
- Division with a divisor of one makes one child as large as the node (`Folders.ChildrenAreSmallerIff`).

## Model

| member | source | states |
|---|---|---|
| ShellEvents.MatchInPrefix | tensorpc/autossh/core.py:486 | An event that is complete in the bytes received so far is the same event in the whole stream, and an event of the whole stream that ends inside them is already found |
| ShellEvents.MatchEndsMonotone | tensorpc/autossh/core.py:486 | An event that begins later never ends earlier, so the leftmost event of a buffer stays the leftmost |
| ShellEvents.SearchInPrefix | tensorpc/autossh/core.py:748-761 | The event found in the buffer is the first event of the stream, whatever bytes follow |
| ShellEvents.EventPiece | tensorpc/autossh/core.py:748-761 | A piece cut at the end of an event holds exactly that event, at its end |
| ShellEvents.PlainCutSkipsNoMatch | tensorpc/autossh/core.py:762-815 | At the other cuts (bell, marker, newline, overlong carriage-return run) no event begins inside the piece, even one completed by later bytes |
| ShellEvents.CutSplitsEvents | tensorpc/autossh/core.py:738-815 | Every cut splits the events of the stream into those of the piece and those of the rest, for any bytes still to come |
| ShellEvents.WaitHasNoEvent | tensorpc/autossh/core.py:738-818 | When nothing is cut, the buffer holds no complete event that could have been handed out |
| ShellEvents.ReadSplitsEvents | tensorpc/autossh/core.py:712-818 | One read over any list of chunks: bytes are kept, events are split at the cut, the piece is not empty and holds one event at its end or none, as its type says; a read that waits leaves no event behind |
| ShellEvents.RunConservesBytes | tensorpc/autossh/core.py:714-826 | Over every interleaving of network deliveries and reads, the pieces followed by the buffer are exactly the delivered bytes |
| ShellEvents.RunFindsFlatEvents | tensorpc/autossh/core.py:714-826 | Over every such run, the events of the pieces followed by the events still buffered are the events of the flat stream; no assumption on the stream is needed |
| ShellEvents.SameEventsForEverySplit | tensorpc/autossh/core.py:714-826 | Two runs that deliver the same bytes in different chunks hand out the same events once drained: those of the flat stream |
| ShellText.MatchIff | tensorpc/autossh/core.py:486 | The pattern on the bytes alone: a match with this extent, letter and argument is found if and only if these bytes are `ESC ]784;`, one of the letters ABPCEFGD, perhaps `;` and an argument without bell and newline, and BEL |
| ShellText.PrintedEventsAreFound | tensorpc/autossh/core.py:486 | The events of any stream of printed events, with marker-free text between them and behind them, are exactly those that were printed, in order, each with its argument |
| ShellText.CutIff | tensorpc/autossh/core.py:738-815 | Where the reader cuts and how it calls the piece, on the bytes alone and in both directions: one line without bell and marker; up to the last carriage return when that is more than 4000 bytes; up to the first bell or the first marker; up to the end of the first event behind a marker that is in front of every bell |
| ShellText.ReadGivesPiece | tensorpc/autossh/core.py:714-815 | What a read hands out is such a piece of the fewest chunks that hold one, and what is left of them stays in front of the other chunks |
| ShellText.WaitingHasNoPiece | tensorpc/autossh/core.py:714-826 | A read waits if and only if no number of the chunks holds a piece |
| ShellReport.ReportOfLineIff | tensorpc/autossh/core.py:550-578 | A piece is reported as one line, with all its text and not as a command, if and only if it holds no event |
| ShellReport.ReportOfEvent | tensorpc/autossh/core.py:550-578 | Text with a printed event behind it is reported as the text in front of a command, marked so and only when there is any, and the command with its argument; for PROMPT_END as the command with the text as its argument |
| ShellReport.HandleResultTells | tensorpc/autossh/core.py:550-578 | The texts of what is reported of a piece, one behind the other, are the piece; only the own argument of a PROMPT_END is not told |
| ShellReport.HandleReadTells | tensorpc/autossh/core.py:497-579 | The same for every result of a read, the line made at the end of file included |
| ShellReport.LoopEndsIff | tensorpc/autossh/core.py:537-549 | The loop ends if and only if the read raised or is at the end of file, and then the last event is the exception or the end of file |
| ShellReport.HandleResultKeys | tensorpc/autossh/core.py:550-578 | The events made from a piece contain exactly the command event that one search finds |
| ShellSession.Session.CutBuffer | tensorpc/autossh/core.py:752-760 | The in-place surgery: the chunks that were read are replaced by what is left behind the cut, an empty rest is dropped, the byte counter stays exact |
| ShellSession.Session.StopAtFailure | tensorpc/autossh/core.py:717-729 | A buffered exception: the bytes in front of it are handed out as a partial read and leave the buffer; with no bytes the first buffered item is taken and decides between end of file and an error |
| ShellSession.Session.StopAtPause | tensorpc/autossh/core.py:820-824 | At a read pause or end of file everything buffered is handed out as a partial read |
| ShellSession.Session.ScanChunk | tensorpc/autossh/core.py:717-818 | One round of the inner loop follows the specification of a read by one chunk |
| ShellSession.Session.ScanBuffer | tensorpc/autossh/core.py:716-818 | The inner loop follows the specification of a read chunk by chunk; every way of stopping conserves the bytes |
| ShellSession.Session.ReadRound | tensorpc/autossh/core.py:715-826 | One round of the outer loop: the buffered chunks are looked at, then the reader gives up at a pause or end of file or waits; whatever arrives meanwhile, the specification of the read is followed |
| ShellSession.Session.ReadUntilEx | tensorpc/autossh/core.py:712-826 | The read loop refines the specification of a read over all buffered and arriving chunks, and what it hands out is a piece as ShellText says from the bytes; bytes are conserved on every exit and the byte counter equals the buffered bytes; bytes handed out without a cut hold no event; without exceptions and pauses that happens only after the end of file and empties the buffer |
| ShellSession.Session.ReadUntil | tensorpc/autossh/core.py:497-531 | The same with the end-of-file flag taken after the read: set exactly when the end of file has been received and the buffer is empty |
| ShellReport.EndOfFileReportsNothing | tensorpc/autossh/core.py:533-549 | A result at which the loop ends, at the end of file or with an exception, reports no command event, whatever it holds |
| ShellSession.Session.ReadAndHandle | tensorpc/autossh/core.py:497-579 | One read and the handling of its result: on a stream without exceptions and pauses the events before are those reported and those of the bytes left, where a result at which the loop ends counts as left |
| ShellSession.Session.HandleStream | tensorpc/autossh/core.py:581-632 | The reading loop for any number of reads with any arrivals in between: for every stream the texts of the reported events are the bytes handed out, and these followed by the bytes left are the bytes delivered; without exceptions and pauses the command events are those of the flat stream up to those of the bytes left, and when nothing is left the last event is missing if and only if the loop stopped at a piece that ends in an event; once the end of file has been received with nothing behind it, more reads than bytes end the loop and report what ShellEof says of the buffer |
| ShellEof.FinalEventIsLost | tensorpc/autossh/core.py:499-541 | The reads after the end of file report every event of the buffered bytes but one that ends them |
| ShellEof.LastEventLostIff | tensorpc/autossh/core.py:499-541 | Over every interleaving of deliveries and reads with the end of file at any point: all events of the stream are reported if and only if the bytes buffered when the end of file is received do not end in an event (or an empty chunk is behind them); otherwise exactly that event is missing |
| ShellProgress.WaitIff | tensorpc/autossh/core.py:738-815 | A buffer is not cut if and only if it holds no complete event and either a marker stands in front of every bell (at the very front if there is no bell) or there is no marker, bell, newline or overlong carriage-return run |
| ShellProgress.StarvedIff | tensorpc/autossh/core.py:748-792 | Behind a marker the reader waits if and only if there is no complete event at all, however many complete lines there are |
| ShellProgress.StarvedRun | tensorpc/autossh/core.py:714-826 | Over every run behind such a marker nothing is handed out as long as no event has arrived |
| ShellProgress.BrokenMarkerWithholdsLine | tensorpc/autossh/core.py:748-750 | A concrete marker with another letter, and a complete line that stays in the buffer |
| ShellPrompt.FirstEventUncutIff | tensorpc/autossh/core.py:738-815 | For any stream, in any chunks: the first piece handed out is everything up to the end of the first event if and only if no bell comes before the first marker and no chunk that ends before the event does makes the reader cut: in front of the complete marker by a newline or an overlong carriage-return run, behind it by any text in front of the marker as long as no bell is there |
| ShellPrompt.PromptArgumentIff | tensorpc/autossh/core.py:565-566 | The argument of PROMPT_END, the first event of any stream, is the whole text in front of it, of any number of lines, if and only if exactly that condition holds |
| ShellPrompt.SplitInMarkerLosesText | tensorpc/autossh/core.py:782-792 | A concrete split between the marker and the bell that loses the text |
| ShellPrompt.SplitBehindLineLosesText | tensorpc/autossh/core.py:793-805 | A concrete split behind a line of a two-line prompt that loses the text |
| WsCodec.FrameStartsInside | tensorpc/core/core_io.py:1110 | Every data frame that is announced has at least one content byte, and the last one reaches the end |
| WsCodec.PayloadSizes | tensorpc/core/core_io.py:1107-1110 | Every data frame but the last is full, the last carries the remainder, and none exceeds the chunk size; a frame that is alone is padded to full size |
| WsCodec.OnlyTheHeaderMayExceed | tensorpc/core/core_io.py:1099-1121 | No message of an encoded reply is longer than the chunk size but the header message, which is longer if and only if data frames follow it and the request leaves less than ten bytes: its size is checked before the number of frames is entered |
| WsCodec.PayloadsPrefix | tensorpc/core/core_io.py:1126-1164 | The first k frames carry exactly the content up to the end of frame k-1 |
| WsCodec.RemainingGivesRoom | tensorpc/core/core_io.py:1136-1139 | The remaining-size counter gives each frame exactly its room, and never zero |
| WsCodec.ProgressFlush | tensorpc/core/core_io.py:1159-1165 | Completing a frame yields the specified payload and starts the next frame with the right room, or all content is out |
| WsCodec.CodesAreInverted | tensorpc/core/core_io.py:97-109 | The decoder's item size is the width of the type that the encoder entered, for all types and shapes, and the codes are distinct |
| WsCodec.EncodedIff | tensorpc/core/core_io.py:1076-1107 | The encoder yields messages if and only if the content fits into one message or both headers leave room; nothing else is refused |
| WsCodec.EncodedCarries | tensorpc/core/core_io.py:1076-1178 | Every message carries the ids, the header message announces exactly the data frames behind it, in order, and there are none if and only if the content fits or is empty |
| WsCodec.GetMessageChunks | tensorpc/core/core_io.py:1067-1178 | The encoder, with both of its assertions: one message when it fits, else a header message announcing ceil(total / room) and that many data frames in order, indices encoded plus one; a zero payload gives a header only |
| WsCodec.FillFrames | tensorpc/core/core_io.py:1124-1178 | The loop over arrays and frames, two misaligned partitions of the same bytes, yields exactly the specified payloads |
| WsCodec.CopyStep | tensorpc/core/core_io.py:1151-1164 | No step copies zero bytes, and each keeps the whole picture of frames, counter and content |
| WsCodec.FramesComplete | tensorpc/core/core_io.py:1159-1165 | When the last content byte is copied, every announced frame has been yielded |
| WsDecoder.ReadArray | tensorpc/core/core_io.py:1219-1236 | Reading one array across frames ends with its bytes, and the code would loop forever exactly when more bytes are asked for than the frames hold |
| WsDecoder.ParseChunks | tensorpc/core/core_io.py:1193-1240 | The frame-by-frame decoder gives the same result as cutting the joined payloads, with the errors of the code |
| WsDecoder.ParseSingle | tensorpc/core/core_io.py:1245-1270 | The decoder of a message that is not chunked: slices, which come out short without an error unless they are shaped and not empty |
| WsDecoder.DecodeSucceedsIff | tensorpc/core/core_io.py:1193-1240 | Decoding succeeds if and only if every entry is known and the bytes of all of them are there |
| WsDecoder.DecodeFailsAt | tensorpc/core/core_io.py:1193-1240 | Otherwise the first entry that is unknown, has no dimensions or lacks bytes decides the error |
| WsDecoder.DecodedEntries | tensorpc/core/core_io.py:1207-1240 | And each array has the bytes at its own place |
| WsDecoder.SingleSucceedsIff | tensorpc/core/core_io.py:1245-1270 | Slicing succeeds if and only if every entry is known and the bytes of every shaped array that is not empty are there |
| WsDecoder.SingleEntries | tensorpc/core/core_io.py:1245-1270 | And gives each entry as many bytes as there are at its place |
| WsDecoder.SingleDecodes | tensorpc/core/core_io.py:1245-1270 | Slicing and the frame loop read the same arrays whenever the bytes are there |
| WsDecoder.PayloadsRebuild | tensorpc/core/core_io.py:1124-1178 | Joined payloads are the content followed by zero padding, and padding only when a single frame is not full |
| WsDecoder.ChunkedRoundTrip | tensorpc/core/core_io.py:1067-1242 | Decoding the frames of any list of arrays gives the arrays back, for every frame size |
| Replies.ClosedIsFinal | tensorpc/core/httpclient.py:169-175 | Once a reply has left the dictionary no later frame or timeout changes it |
| Replies.FutureIsSetOnce | tensorpc/core/httpclient.py:139-255 | A future that is done keeps its value over every run that does not end the loop |
| Replies.FirstOutcomeStays | tensorpc/core/httpclient.py:139-255 | An error frame, a timeout or a cancellation that finds the call pending decides it, each with its own outcome, whatever follows |
| Replies.FailedStays | tensorpc/core/httpclient.py:139-144 | Behind an error frame any timeouts and cancellations change nothing at all |
| Replies.NeverResolvedTwice | tensorpc/core/httpclient.py:167-274 | Without error frames and cancelled callers no run of frames and timeouts resolves a future twice |
| Replies.StepResolvesTwiceIff | tensorpc/core/httpclient.py:139-222 | A frame resolves a future a second time if and only if the reply is still pending, its future is done, and the frame is an error, a decodable whole message, or the last missing chunk, at a free slot, of a decodable message |
| Replies.ResolvedTwiceIff | tensorpc/core/httpclient.py:132-225 | A run resolves a future twice if and only if one of its inputs is such a frame for the reply that the inputs before it lead to |
| Replies.ErrorOrCancelCameFirst | tensorpc/core/httpclient.py:139-146 | And an error frame, or the cancellation of the caller that awaits the future, came before it |
| Replies.LateResultCrashes | tensorpc/core/httpclient.py:139-185 | Either of the two, followed by a result for the same call, ends the receive loop |
| Replies.CounterStep | tensorpc/core/httpclient.py:88-96 | The counter of a reply counts its filled slots after a step exactly unless a second chunked header arrives when chunks are already in, because the slots are emptied and the counter is not |
| Replies.CounterCountsSlots | tensorpc/core/httpclient.py:88-96 | Over every run with at most one chunked header the counter equals the number of filled slots |
| Replies.AllSlotsFilled | tensorpc/core/httpclient.py:88-92 | As many distinct chunks as slots fill every slot, each with its own payload |
| Replies.CollectAnyOrder | tensorpc/core/httpclient.py:186-222 | Chunks in any order: the reply stays open until the last one, which resolves it with the message decoded in index order |
| Replies.OpenBeforeLastChunk | tensorpc/core/httpclient.py:167-225 | A header and any proper part of its chunks, in any order, leave the reply open with exactly those slots filled |
| Replies.ChunkCrashes | tensorpc/core/httpclient.py:88-92 | A chunk that has arrived before, also by a negative index, or that has no slot, ends the receive loop with its own error |
| Replies.ReplyCompletesOnLastChunk | tensorpc/core/httpclient.py:167-225 | A header and all its chunks in any order resolve the future with the arrays and close the reply |
| Replies.TimeoutBeforeLastChunk | tensorpc/core/httpclient.py:251-255 | A timeout before the last chunk decides the reply, and whatever arrives later is ignored |
| Replies.WebsocketRoundTrip | tensorpc/core/core_io.py:1067-1242 | Any arrays, any frame size, any delivery order: the future is resolved with the arrays that were sent |
| Replies.SingleMessageRoundTrip | tensorpc/core/core_io.py:1076-1098 | The same for a message that fits into one chunk, including the empty one |
| Client.CallsDoNotInterfere | tensorpc/core/httpclient.py:132-274 | However calls, made at any time, frames, timeouts and cancellations are interleaved, each call ends as its own events alone lead to |
| Client.DeathHasOneCause | tensorpc/core/httpclient.py:132-225 | The receive loop dies only if the events of one call alone would kill it, for the same reason |
| Client.CallAmongOthers | tensorpc/core/httpclient.py:132-274 | A call made at any time, whatever came before: the state of its reply is what its own frames, timeouts and cancellations lead to |
| Client.EncodedReplyIsReceived | tensorpc/core/core_io.py:1100-1121 | What the encoder makes of a reply is received as inputs of its own call only: the header with the number of data frames and the data frames with their indices in any order, or the whole message |
| Client.EncodedReplyArrives | tensorpc/core/core_io.py:1067-1242 | End to end: for all sizes that the encoder accepts, the frames it makes of any arrays, delivered behind the call with the data frames in any order and among any other traffic, resolve the future of the call with these arrays |
| Client.PendingReply.InsertChunk | tensorpc/core/httpclient.py:88-92 | Fills a free slot, with Python's negative indices, and reports the last one; a taken or missing slot is an error that changes nothing |
| Client.PendingReply.SetResult | tensorpc/core/httpclient.py:182-185 | Resolving a future: an undecodable message or an already resolved future is an error that changes nothing |
| Client.PendingReply.Finish | tensorpc/core/httpclient.py:219-222 | The message is decoded from the slots in index order and resolves the future |
| Client.PendingReply.TakeChunk | tensorpc/core/httpclient.py:196-222 | A chunk for this reply refines the step on values, and finishes the reply or not |
| Client.PendingReply.TakeResult | tensorpc/core/httpclient.py:176-185 | The same for a result |
| Client.WebsocketClient.AddPending | tensorpc/core/httpclient.py:262-271 | A call adds one fresh unresolved reply, as the event of the call on values says, and changes no other |
| Client.WebsocketClient.OnRpcFrame | tensorpc/core/httpclient.py:167-185 | The object code for a result frame refines the step on values: only the addressed reply changes |
| Client.WebsocketClient.OnChunkFrame | tensorpc/core/httpclient.py:186-225 | The same for a chunk frame, with the minus-one decoding of id and index |
| Client.WebsocketClient.OnErrorFrame | tensorpc/core/httpclient.py:139-146 | The same for an error frame, which leaves the reply in the dictionary |
| Client.WebsocketClient.RpcTimeoutCallback | tensorpc/core/httpclient.py:251-255 | The same for a timeout, which reaches the reply object even when it has left the dictionary |
| Client.WebsocketClient.CancelCaller | tensorpc/core/httpclient.py:274 | The same for a cancelled caller, which cancels the future and leaves the reply in the dictionary |
| PbStream.ToProtobufStream | tensorpc/core/core_io.py:339-415 | The generator yields, argument by argument, at least one frame each, the shape only in the first |
| PbStream.FromBufferStream.Receive | tensorpc/core/core_io.py:262-279 | The first half of the decoder step: a first frame resets the per-argument fields and allocates the array, then the bytes are stored |
| PbStream.FromBufferStream.Call | tensorpc/core/core_io.py:262-301 | The decoder object refines the step on values, including the stale fields it leaves |
| PbRoundTrip.AbsorbPiece | tensorpc/core/core_io.py:262-279 | After a frame the decoder holds exactly the bytes of its argument up to the end of that frame, whatever it held before the first one |
| PbRoundTrip.PieceFits | tensorpc/core/core_io.py:363-380 | Where each piece goes, and that the pieces cover the data |
| PbRoundTrip.FeedArg | tensorpc/core/core_io.py:262-301 | The frames of one argument give no output but the completed call at the last frame of the last argument |
| PbRoundTrip.FeedCall | tensorpc/core/core_io.py:262-301 | The frames of a call leave the decoder idle again, for any frames behind them |
| PbRoundTrip.StreamRoundTrip | tensorpc/core/core_io.py:314-327 | Any sequence of calls, each with its own chunk size, through one decoder: each call's arguments, key and flags come out at its last frame and nothing at any other |
| PbRoundTrip.CompletedCalls | tensorpc/core/core_io.py:314-327 | Exactly the calls that were sent come out, in order |
| Skeleton.ExtractContext.Extract | tensorpc/core/core_io.py:427-541 | Extraction appends the arrays in traversal order to whatever was collected before, and each placeholder holds the index its array got |
| Skeleton.SkelDepth | tensorpc/core/core_io.py:427-541 | Separating a payload does not nest it deeper |
| Skeleton.PutElementDepth | tensorpc/core/core_io.py:604-669 | Putting back does not nest deeper, and a dictionary taken for a separated leaf never comes back as it was |
| Skeleton.PutIdentity | tensorpc/core/core_io.py:604-669 | Where there is nothing to put back, putting back changes nothing |
| Skeleton.PutSkelElement | tensorpc/core/core_io.py:604-669 | An element of a container is restored if and only if its special leaves are flagged JSON_ONLY or FREEZE and not as arrays, no dictionary in it uses the reserved key, and it holds no placeholder and no id that separation rewrites; any longer array list serves as well |
| Skeleton.SeparationRoundTrip | tensorpc/core/core_io.py:552-669 | The same for a whole payload, for every payload: a root dictionary may use the reserved key, but in json-index mode the root may not be an array or a special leaf |
| Skeleton.IdsComeBackAsText | tensorpc/core/core_io.py:1028-1032 | The mode of every websocket message: what is put back is the payload with each component id replaced by its encoded text, if and only if the payload survives apart from its ids |
| Skeleton.ReservedKeyIsLost | tensorpc/core/core_io.py:725-737 | A pickled message is put back with the empty key, so a list holding a dictionary with an empty key fails |
| Rpc.PayloadsRoundTrip | tensorpc/core/core_io.py:302-327 | End to end: any sequence of payloads, each with its own chunk size and a serializer that carries its skeleton, extracted, serialized, fragmented, joined, reassembled and put back, arrives unchanged and in order |
| Rpc.ExtractChunkedData | tensorpc/core/server_core.py:427-436 | Exactly the frames of the first call are taken from the shared iterator |
| Rpc.FirstCallConsumesItsFrames | tensorpc/core/server_core.py:427-436 | A call with any number of arguments, in front of any frames, is read back and consumes exactly its own frames |
| Relay.MetaRoundTrip | tensorpc/core/server_core.py:1034-1037 | The relay header survives as a dictionary with the numeric call type |
| Relay.HeaderIsReadBack | tensorpc/core/server_core.py:1032-1037 | A server reads back the header, its key and its flags, and is left with exactly the frames behind it |
| Relay.RelayIsTransparent | tensorpc/core/server_core.py:1030-1079 | For every list of servers, every call type and any body, the last server is called with exactly the client's body and its responses are what the client gets; the list shrinks at every hop |
| SharedMemory.AlignIsLeast | tensorpc/core/core_io.py:762-767 | The aligned offset is the least multiple of the alignment that is not below the offset |
| SharedMemory.AlignUpIsAlignOffset | tensorpc/core/core_io.py:762-767 | The rounding that the layout is proved with is the computation of the source |
| SharedMemory.RegionsAreDisjoint | tensorpc/core/core_io.py:797-809 | Regions follow one another without overlap |
| SharedMemory.ImageHolds | tensorpc/core/core_io.py:797-809 | Every array is at its offset, whatever is written after it |
| SharedMemory.ImageKeepsTheRest | tensorpc/core/core_io.py:797-809 | No byte outside the regions is written |
| SharedMemory.WriteShared | tensorpc/core/core_io.py:770-813 | The writer succeeds exactly when the padded total fits, and then the memory holds every array at its aligned offset and the skeleton right behind; refused by the size check it has written nothing, refused later it has written exactly the arrays that end inside the memory |
| SharedMemory.ReadShared | tensorpc/core/core_io.py:816-839 | The reader succeeds exactly when the regions fit, and reads them from the offsets the writer used |
| SharedMemory.WrittenIsReadBack | tensorpc/core/core_io.py:770-839 | What is written is read back: every array's bytes and the skeleton |
| SharedMemory.NoPaddingIff | tensorpc/core/core_io.py:762-767 | There is no padding exactly when the sizes in front of every region add up to a multiple of the alignment |
| SharedMemory.SizeCheckIsExactIff | tensorpc/core/core_io.py:792-795 | The writer's own size check never refuses what fits, and it is exact for every size of the memory if and only if no region needs padding |
| SharedMemory.SizeCheckMissesPadding | tensorpc/core/core_io.py:792-795 | With an alignment the check accepts a memory that the padded arrays do not fit into |
| TypeGraph.Generator.Generate | tensorpc/core/annolib.py:540-555 | The recursive generator with its shared visited set yields the specified walk and adds exactly what it yields; it terminates on cyclic graphs |
| TypeGraph.WalkIsSound | tensorpc/core/annolib.py:540-555 | Whatever is yielded is reachable through fields and type arguments |
| TypeGraph.WalkIsFresh | tensorpc/core/annolib.py:540-555 | What is yielded was not visited before, and is yielded once |
| TypeGraph.WalkCloses | tensorpc/core/annolib.py:540-555 | After the walk everything mentioned has been visited, up to classes whose own visit is under way |
| TypeGraph.GeneratesExactlyTheReachable | tensorpc/core/annolib.py:559-561 | Over any possibly cyclic graph exactly the reachable dataclasses are yielded, each once |
| TypeGraph.ChildDataclasses | tensorpc/core/annolib.py:559-561 | The same, of the object that is run |
| Decimal.ParsePrint | tensorpc/core/tree_id.py:30 | Reading a printed length gives the length |
| Decimal.ParsePrintInt | tensorpc/core/tree_id.py:30 | The same for any integer |
| TreeId.DecodeEncode | tensorpc/core/tree_id.py:15-56 | Any list of strings survives encoding and decoding: empty strings, and strings with bars, dots, digits or the splitter |
| TreeId.DecodeEncodeIff | tensorpc/core/tree_id.py:15-56 | An encoded id decoded with any other splitter length gives the parts if and only if there is at most one; with more it is refused |
| TreeId.DecodeIff | tensorpc/core/tree_id.py:15-38 | For every text whose length part holds no negative number: it decodes to these parts if and only if their lengths, in any form that `int` reads, are in front of the first bar and behind it the parts with any separators of the right length; only the empty text has no parts |
| TreeId.EncodeInjective | tensorpc/core/tree_id.py:77-80 | For a fixed splitter two encoded ids are equal exactly when their parts are |
| TreeId.EncodeEqualIff | tensorpc/core/tree_id.py:77-80 | For any two splitters the encoded ids are equal exactly when the parts are and, if there are at least two, the splitters are |
| TreeId.InplaceDecodesIff | tensorpc/core/tree_id.py:43-45 | What is set in place can be decoded again exactly when there is at least one part, unlike an id from `from_parts` |
| TreeId.InplaceCopiesIff | tensorpc/core/tree_id.py:43-45 | An id set in place with any splitter can be decoded with its own splitter length if and only if there is one part, or several and the splitter has that length |
| TreeId.UniqueTreeId.New | tensorpc/core/tree_id.py:15-38 | The constructor accepts exactly the decodable ids and stores their parts, for whatever `int` accepts as a length, negative numbers included |
| TreeId.UniqueTreeId.Copy | tensorpc/core/tree_id.py:128-129 | A copy decodes the text with the splitter length of the id, which may refuse it |
| TreeId.UniqueTreeId.Validate | tensorpc/core/tree_id.py:98-104 | A string is decoded with the default splitter length |
| TreeId.UniqueTreeId.CutText | tensorpc/core/tree_id.py:33-37 | The loop over the lengths cuts the text into the specified pieces |
| TreeId.UniqueTreeId.FromParts | tensorpc/core/tree_id.py:47-56 | Building an id never fails and gives back the parts |
| TreeId.UniqueTreeId.SetPartsInplace | tensorpc/core/tree_id.py:43-45 | Changes parts and text together |
| TreeId.UniqueTreeId.AppendPart | tensorpc/core/tree_id.py:68-69 | A new id with one more part |
| TreeId.UniqueTreeId.Pop | tensorpc/core/tree_id.py:74-75 | A new id without the last part, encoded with the default splitter |
| TreeId.UniqueTreeId.StartsWith | tensorpc/core/tree_id.py:106-112 | Compares parts, not text |
| TreeId.UniqueTreeId.CommonPrefix | tensorpc/core/tree_id.py:114-119 | The longest list of parts that both ids start with |
| TreeId.UniqueTreeId.Equals | tensorpc/core/tree_id.py:77-80 | Comparing encoded text decides whether the parts are equal, and of ids with several parts also whether the splitters are |
| FlowTree.LabelsAreInjective | tensorpc/apps/adv/model.py:121-129 | Two positions of a nested flow with the same names above and the same id are the same position |
| FlowTree.GlobalUidsAreInjective | tensorpc/apps/adv/model.py:127-129 | Global ids are injective over the whole tree |
| FlowTree.PathAssigner.Assign | tensorpc/apps/adv/model.py:225-233 | The recursion fills the dictionaries as specified |
| FlowTree.OthersUntouched | tensorpc/apps/adv/model.py:225-235 | Placing a flow leaves every other entry of the dictionaries alone |
| FlowTree.EveryPositionIsStored | tensorpc/apps/adv/model.py:221-237 | Every node is stored under its global id with the names above it and its own frontend path |
| FlowTree.OnlyUidsAreStored | tensorpc/apps/adv/model.py:221-237 | Nothing but global ids of nodes is stored |
| FlowTree.IdPathOfFrontendPath | tensorpc/apps/adv/model.py:253-255 | Every third element of a frontend path from the second on is the path of node ids |
| FlowTree.GetFlowNodeByFePath | tensorpc/apps/adv/model.py:205-218 | The loop follows the id path, with its three outcomes |
| FlowTree.LookupFindsPosition | tensorpc/apps/adv/model.py:205-218 | Looking up finds the node of the position with its true parent |
| FlowTree.LookupOutcome | tensorpc/apps/adv/model.py:205-218 | For any path: a node is found if and only if the path is a position, None comes back if and only if the path is empty or a node without a flow is in the way, otherwise it is a KeyError |
| FlowTree.GlobalUidLeadsBack | tensorpc/apps/adv/model.py:205-237 | From the global id of any node, through the dictionary and its frontend path, back to that node and its true parent |
| FlowTree.StoredIff | tensorpc/apps/adv/model.py:221-237 | The dictionaries know exactly the global ids of the nodes |
| FlowTree.UpdatedPosition | tensorpc/apps/adv/model.py:239-251 | Updating references keeps every position, with its id, its name and the names above it |
| FlowTree.UpdateSucceedsIff | tensorpc/apps/adv/model.py:239-251 | With the flow's own dictionaries the update passes its assertions if and only if every reference in the flow has an import path, and some node of the flow has exactly that path above it and the id of the reference |
| FlowTree.UpdateKeepsTheRest | tensorpc/apps/adv/model.py:239-251 | The update changes no id, no name, no flow and no reference's target id, and makes no reference where there was none |
| FlowTree.ReferenceLeadsToItsNode | tensorpc/apps/adv/model.py:239-251 | Under that condition the update succeeds, and the frontend path stored in a reference, looked up in the updated flow, gives the node with exactly the id and the names above it that the reference was made with; its import path has not changed |
| Folders.DivideCovers | tensorpc/dock/jsonlike.py:238-243 | The swap bounds the number of children by the divisor, no child is empty, together they hold everything, and there are several exactly when the count exceeds a divisor of at least two |
| Folders.DivideSwaps | tensorpc/dock/jsonlike.py:238-241 | The smaller one of the divisor and the number of pieces becomes the number of children, the larger one their size |
| Folders.GetDividedTree | tensorpc/dock/jsonlike.py:238-277 | The loops make the specified children |
| Folders.DivisionTiles | tensorpc/dock/jsonlike.py:238-277 | At most `divisor` children, none empty, tiling the parent's range in order; a dictionary's keys are divided without loss or reordering |
| Folders.ChildrenAreFolders | tensorpc/dock/jsonlike.py:244-276 | Each child's id is the parent's with the child's number behind it, so the ids differ; it is called by its number, is a folder of the parent's kind, and keeps the id of the list or dictionary it is part of |
| Folders.ChildrenAreSmallerIff | tensorpc/dock/jsonlike.py:235-243 | Every child is smaller than its parent exactly when the parent is divisible by a divisor of at least two |
| Folders.LeavesTile | tensorpc/dock/jsonlike.py:235-277 | Dividing again and again ends, and the folders left hold at most `divisor` entries each and tile the whole range in order, for folders and for the list or dictionary they come from |
| Folders.LeavesKeys | tensorpc/dock/jsonlike.py:262-276 | The keys of a dictionary are divided over the folders left without loss or reordering |
| Folders.LeavesAreParts | tensorpc/dock/jsonlike.py:235-277 | However deep the division goes, the folders left have different ids that continue the node's, and each names the list or dictionary that all are parts of |
| SourceLines.LinesAreUnique | tensorpc/core/serviceunit.py:476-498 | There is only one way to cut a text into non-empty lines with a terminator only at their end and no split `\r\n` |
| SourceLines.SplitLinesNoFf | tensorpc/core/serviceunit.py:476-498 | The loop gives such lines, and they concatenate to the source |
| SourceLines.SourceSegmentGetter.GetSourceSegment | tensorpc/core/serviceunit.py:517-550 | Without padding the segment is the flat text between the two (line, column) offsets; padding goes in front of several lines only; a missing line is an IndexError; an end line before the start line gives the two end pieces |
| SourceLines.PaddingKeepsPlace | tensorpc/core/serviceunit.py:501-511 | Padding has the length of the text, keeps tabs and form feeds in place and has blanks elsewhere |
| SourceLines.OneLineSegment | tensorpc/core/serviceunit.py:535-536 | A slice of one line is the flat slice between its two offsets, columns past the end included |
| SourceLines.SeveralLinesSegment | tensorpc/core/serviceunit.py:544-550 | The end of the first line, the lines between and the start of the last line are one flat slice |
| UniqueNames.UniqueNameIsFree | tensorpc/utils/uniquename.py:20-38 | An allocated name was not in use, and is the wanted one whenever that is free |
| UniqueNames.BaseAndTailIff | tensorpc/utils/uniquename.py:24-32 | A name is taken apart at its last underscore if and only if a number follows that and the name does not begin with an underscore; otherwise it is its own base with number zero |
| UniqueNames.TakenNameIsNumbered | tensorpc/utils/uniquename.py:34-39 | A taken name is given the base, an underscore and the least free number above its own, and an error if that is out of range |
| UniqueNames.NameIsNoCandidate | tensorpc/utils/uniquename.py:24-35 | A name is never one of its own numbered candidates |
| UniqueNames.CountCandidates | tensorpc/utils/uniquename.py:34-35 | Different numbers give different candidates, so a range of them has as many as numbers |
| UniqueNames.GivesUpOnlyWhenFull | tensorpc/utils/uniquename.py:20-39 | Allocation gives up only when the pool holds at least `max_count` names |
| UniqueNames.SearchFree | tensorpc/utils/uniquename.py:34-38 | The loop finds the first free candidate |
| UniqueNames.UniqueNamePool.MakeUniqueName | tensorpc/utils/uniquename.py:20-51 | The allocated name is added to the pool, a failed call changes nothing |
| UniqueNames.UniqueNamePool.Pop | tensorpc/utils/uniquename.py:56-57 | Removes the name; a missing one is a KeyError |
| UniqueNames.LiveNameIsNotReturned | tensorpc/utils/uniquename.py:20-64 | In any run of allocations and removals a name in the pool is not returned before it is freed |
| UniqueNames.NoNameIsReturnedTwice | tensorpc/utils/uniquename.py:20-64 | A name returned twice was freed in between |

## Left out

- Sockets, processes, gRPC, aiohttp, asyncssh and tmux: streams are sequences of chunks, frames or arrivals.
- The text and binary formats of protobuf, JSON, msgpack and pickle: a serializer is any pair of functions, a payload is sent with one that carries its skeleton, and header sizes are parameters. Relay headers are taken to be carried by every serializer.
- The optree path of `extract_arrays_from_data`, which depends on another library's traversal; the recursive path is modelled.
- numpy beyond shape and bytes: strides, arrays without dimensions, and the bytes of uninitialised arrays, which a parameter stands for.
- Integer width: lengths are unbounded, and a 32-bit length field that overflows is not modelled.
- The metadata entry of a bytes object or array buffer is taken to have one dimension, as the encoder writes it.
- `get_skeleton` writes three items (flags, metadata, skeleton) while the Python decoders unpack two; the decoders here are given metadata and skeleton as values.
- The path of the encoder for skeletons over the size limit, which travel as one more packed array for the JavaScript client.
- What `parse_array_of_chunked_message` returns is the list of arrays; putting them into the skeleton is the subject of Skeleton.
- Event frames, service-id queries and subscriptions of the websocket client; the cleanup of unresolved futures after its loop has ended; JSON errors in error frames.
- Call ids are taken to be new for every call, as they come from a nanosecond clock.
- ShellSession: asyncssh is not part of this model. Its `at_eof` is taken to mean that the end of file has been received and the buffer is empty; after the end of file ShellEof lets it deliver nothing.
- ShellSession.Session.ReadUntilEx: at an exception or read pause it states which bytes are handed out and kept, and `StopAtFailure` and `StopAtPause` state the rest; the theorems about events are about streams without them.
- ShellSession.Session.MaybeResumeReading: whether a paused channel resumes is left open, because asyncssh decides it.
- ShellEvents: the limit on carriage-return runs is the default of 4000 bytes; a session may be given another.
- ShellSession.Session.HandleStream: one reader of the two; the order between standard output and standard error, the shutdown task, and exceptions of the callbacks are not modelled.
- PbStream: the text of remote exceptions inside a frame, and the unused fields of the decoder (`current_buf_idx`, `current_buf_length`, `num_args`).
- Relay: exceptions of the real call and of the connection are part of what the last server answers; the asynchronous twins; error branches of client-stream calls.
- SharedMemory: bytes objects come back as arrays of bytes, since their metadata carries a dtype, so only the bytes are compared; the multi-threaded copy, which broadcasts an array of one byte into an empty slice, is left out.
- The single-buffer container of `dumps` and `loads`: the same regions without alignment behind a 16-byte header.
- TypeGraph: how `typing` resolves hints; a class without an entry in the graph has no fields.
- TreeId, UniqueNames: `int` is a parameter that is only known to read printed integers back.
- FlowTree.PathAssigner.Assign: the two dictionaries, which always have the same keys, are one, and the fields `path` and `frontend_path` of a node are what is stored under its global id.
- FlowTree.UpdatedPosition: nodes are values, so the update of references builds the updated flow; when an assertion of the update fails, the references written before it are not modelled.
- Folders.GetDividedTree: a divisor of zero is a ZeroDivisionError, and a dictionary node without keys fails an assertion; both are outside the contract. Fields that only the user interface reads are left out.
- SourceLines: text is bytes, so columns count characters; nodes that lack a position, and negative lines, are left out.
- User-interface layout, service registration, module reloading, tracing and the key-value store over shared memory.
