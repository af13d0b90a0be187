# Zephelin trace capture, repair and profiling: a verified model

Zephelin records what a device does while it runs neural networks. A device sends a byte
stream; host tools find the start tag `_zpl_ctf_start__` in it, cut it into traces and
packets, turn the packets into begin and end events, repair those events, find out which
model each inference ran, and serve the events live. This project models that chain, and the
pieces of device code that feed it, and proves what the chain is for.

The parts, each in a module named after what it models:

| part | files |
|---|---|
| What a tag splitter and a packet framer must compute, as plain functions on whole streams | `Splitting.dfy`, `StreamEnds.dfy`, `Framing.dfy` |
| The live framer and its independence of how the network cuts the stream | `StreamParserProxy.dfy`, `ChunkIndependence.dfy`, `LostTags.dfy` |
| The offline packet framer, and its agreement with the live one | `PrepareDir.dfy` |
| The splitter of simulated machines | `RenodeMachine.dfy` |
| The sliding-window splitter of the capture commands | `CtfFileHandler.dfy`, `CtfExactness.dfy` |
| Extraction of instrumentation messages from a console | `Instrumentation.dfy` |
| Repair of truncated traces, of timestamps, and both in a row | `TraceRepair.dfy`, `TraceNesting.dfy`, `FixTimestamps.dfy`, `TraceAdjustment.dfy`, `OwnEnds.dfy`, `Containment.dfy` |
| Identification of TVM models by common prefixes of function names | `CommonPrefix.dfy`, `ModelNumbers.dfy`, `InferenceNumbers.dfy`, `InferencePrefixes.dfy`, `LiveNumbers.dfy` |
| The live pipeline of the trace server as a step machine | `LivePipeline.dfy` |
| The serial link of the micro_speech sample, sender and receiver | `UartFrames.dfy` |
| The operator profilers, emitting at once or delayed | `Profilers.dfy` |
| The fixed-point dense layers of the generated sine model | `DenseKernel.dfy` |
| Helpers | `Sequences.dfy`, `Options.dfy`, `Sorting.dfy`, `TraceEvents.dfy` |

Code that changes state step by step is a class or a method with loops, proved against a
function of the old state; the properties are then proved of that function, over all inputs
and all sequences of calls. The reference notions (`LeftmostSplit`, `Frame`, `Scan`,
`Repaired`, `LcpAll`, `Requantized`, ...) are defined on whole streams and traces and have
uniqueness or minimality lemmas of their own.

`dafny verify dfyconfig.toml` checks everything.

Where the code does not do what its documentation or its evident purpose says, the model does
what the code does, a lemma gives an input on which it fails, and another says exactly when
it does not:

- `save_chunk` documents that tags may be split between pieces. A tag in three pieces, the
  middle one shorter than 15 bytes, is lost unless the first chunk is, too
  (`CtfExactness.ShortChunkLosesTag`);
  `CtfExactness.FilesExactIff` says for which chunks the files are exact, and
  `CtfExactness.FilesExact` names chunk sizes and tag distances that suffice.
- The live framer can miss a tag behind a packet that is cut short by less than a tag, or
  behind a corrupt header (`ChunkIndependence.ShortCutLosesTag`,
  `ChunkIndependence.TagRecognisedIff`); `LostTags.ResetsAgreeIff` says for which streams.
- Closing a simulated machine's capture does not look for tags that earlier polls did not get
  to (`RenodeMachines.TwoTagsInOneRead`, `RenodeMachines.FilesExactIff`).
- `fix_timestamps` is to make sure that parents do not end before children. It fails for
  instrumentation events and for Zephelin traces of two kinds. For a function that calls itself
  it takes the inner call's end for the outer one's, which then stays where it is
  (`Containment.RecursionNotContained`); `OwnEnds.FirstEndIsOwnIff` and
  `Containment.OwnContainedIff` say that, with Zephelin traces that hide nothing, this happens
  exactly for events that enclose one of their own name. And a Zephelin scope that is unfinished,
  has no length or encloses one of its own name can hide what begins behind it
  (`Containment.UnfinishedScopeHidesChild`, `Containment.EmptyScopeHidesChild`,
  `Containment.ReenteredScopeHidesItself`); `OwnEnds.LaterEndIsOwnIff` says exactly which scopes
  find their own end, `Containment.AllSpansIff` and `Containment.ZephelinTraceIff` exactly which
  traces hide nothing. The Zephelin events of a thread are taken to be in time order, as
  babeltrace delivers them; they may lack begins and ends.
- `fix_timestamps` can mark the same position twice and then removes an unrelated event, also
  in traces that come out of the first repair (`FixTimestamps.UnrelatedEventLost`,
  `TraceAdjustment.BalancedEventsLost`); `FixTimestamps.RemovalExactIff` says exactly when.
- The first repair ends an open event just after the last event of its thread, which may be the
  thread's new name, at time 0. Such an event is ended before it began and then removed
  (`TraceAdjustment.RenamedThreadLosesEvent`); `TraceRepair.RepairedEventsInOrderIff` says exactly
  when the order of begins and ends is kept.
- `tvm_recalculate_model_numbers` reads a loop variable that was never assigned when the first
  finished inference ends with the trace's last event (`InferenceNumbers.EndOfTraceFails`); the
  contract of `InferenceNumbers.TvmRecalculateModelNumbers` says so, as an if-and-only-if.
- Models are to have consecutive numbers (scripts/prepare_trace.py:47). The trace server renumbers
  every increment on its own: a model that finishes inferences in two increments gets two
  numbers, and the second one is given to the next model, too (`LiveNumbers.RecurringModel`). The
  id 0 is taken out of the dictionary, so that a model that was registered after it shares its
  number with the first TVM model (`LiveNumbers.ZeroReportedFirst`).
  `LiveNumbers.LiveNumbersTellModelsIff` and `LiveNumbers.ConsecutiveIff` say exactly when numbers
  tell models apart over a live trace and when they are consecutive.
- The frontend is to know the current name of every thread. What is collected on request overtakes
  what is still queued: a name that was queued, and changed since, comes last and stays
  (`LivePipeline.StaleName`); `LivePipeline.CollectKeepsNamesIff` says exactly when a collect does
  no harm, and `LivePipeline.FrontendKnowsNames` covers every run without such a collect.
- The offline framer stops at a packet that is a bare header, the live one does not
  (`PrepareDirs.BareHeaderStops`, `PrepareDirs.OfflineAgreesWithLive`).
- Instrumentation capture that starts without knowing whether a message is being sent may take
  text for a payload (`Instrumentation.TextTakenForPayload`); `Instrumentation.UnknownStartIff`
  says which text, and so exactly when there is none. Until then the chunking matters
  (`Instrumentation.UnknownStartDependsOnChunks`).

## Model

| member | source | states |
|---|---|---|
| Splitting.SplitJoin | server/handlers/trace_handler.py:77-85 | Cutting a stream at every start tag found by leftmost search loses nothing: joining the pieces with tags gives the stream back, and in every piece followed by a tag that tag is the first one found |
| Splitting.SplitUnique | server/handlers/trace_handler.py:77-85 | The leftmost split is the only list of pieces with these properties, although the tag overlaps itself by one byte |
| Splitting.SplitAppend | server/handlers/trace_handler.py:77-85 | More bytes never change a piece that was cut off; only the last piece is cut again, together with the new bytes |
| Splitting.SplitDropPrefix | server/handlers/trace_handler.py:87-93 | Bytes at which no tag of the stream starts can be put aside: they only lengthen the first piece |
| Framing.HeaderSize | server/handlers/trace_handler.py:95-100 | The size read from the third and fourth header byte is below 65536, and at most 8191 bytes when it is given in bits |
| Framing.HeaderRoundTrip | server/handlers/trace_handler.py:95-100 | Every size that a header can announce is read back from its little-endian field: as it is in bytes; in bits up to seven more than eight times the size |
| Framing.FrameConcat | server/handlers/trace_handler.py:95-123 | Framing loses no byte and every frame is a complete packet whose header announces its own length |
| Framing.FrameUnique | server/handlers/trace_handler.py:95-123 | Packets followed by bytes that cannot be framed are framed as just those packets and that tail: framing inverts concatenation |
| Framing.FrameAppend | server/handlers/trace_handler.py:95-123 | Framing continues where it stopped: packets are final, only the tail is framed again when bytes arrive |
| Framing.FrameCorrupt | server/handlers/trace_handler.py:102-110 | Behind a corrupt header no later byte yields a packet |
| StreamParserProxies.StreamParserProxy.constructor | server/handlers/trace_handler.py:60-72 | A new framer is unsynchronised, holds nothing and satisfies the invariant |
| StreamParserProxies.StreamParserProxy.ProcessData | server/handlers/trace_handler.py:74-123 | Keeps the invariant (no tag buffered; at most 16 bytes while unsynchronised, fewer than 4 without a known size, otherwise fewer than the announced size, which is the one in the buffered header and at most 8191 bytes if given in bits), ends after finitely many rounds, and emits one reset per tag of the buffered bytes and the packets framed after the last tag |
| StreamParserProxies.KeepTail | server/handlers/trace_handler.py:88-93 | What is kept of unsynchronised bytes is their end: all of them, or exactly as many as a tag has |
| StreamParserProxies.ResetsFirst | server/handlers/trace_handler.py:77-93 | What one chunk causes is a reset for every tag buffered then, and only after all of them packets: a piece that ends with a tag is not framed any more |
| ChunkIndependence.ChunkingDoesNotMatter | server/handlers/trace_handler.py:74-123 | For every tag-safe stream and every cutting into chunks: as many resets as tags and, after the last reset, exactly the complete packets behind the last tag in order; without a tag nothing is forwarded. The final state depends on the stream only, unless a corrupt header comes behind the last tag: then it is unsynchronised and holds some of the last bytes |
| ChunkIndependence.CorruptStateDependsOnChunks | server/handlers/trace_handler.py:102-110 | Behind a corrupt header the same stream, cut differently, leaves one byte or none in the buffer |
| ChunkIndependence.TagSafeIff | server/handlers/trace_handler.py:95-123 | A piece between tags is safe exactly when its framing meets no corrupt header and its last packet is complete, shorter than a header, or short by at least a whole tag |
| ChunkIndependence.TagRecognisedIff | server/handlers/trace_handler.py:74-123 | The tag behind a piece is recognised for every way of cutting it in two if and only if the piece is safe |
| ChunkIndependence.ShortCutLosesTag | server/handlers/trace_handler.py:114-123 | Four bytes of an eight-byte packet, then a tag of which four bytes arrive first: no reset |
| ChunkIndependence.PartialTagAsHeader | server/handlers/trace_handler.py:95-100 | Part of a tag read as a header announces 3470 bytes (and at least 3040 behind up to three other bytes), so it is never a complete packet |
| LostTags.ResetsAgreeIff | server/handlers/trace_handler.py:74-123 | All ways of cutting a stream into chunks lead to the same number of resets if and only if the stream is tag-safe, for every stream in which no tag behind a piece that is not tag-safe shares a byte with another tag |
| LostTags.TagSwallowed | server/handlers/trace_handler.py:102-123 | A stream with a piece between tags that is not tag-safe, cut inside the tag behind that piece, causes one reset less than it has tags, unless that tag overlaps another |
| LostTags.OneChunkCounts | server/handlers/trace_handler.py:74-93 | Any stream that arrives in one chunk causes as many resets as it has tags |
| LostTags.OverlapHidesLoss | server/handlers/trace_handler.py:74-123 | Behind a packet cut short, two tags that share a byte and a third: although the first of the two is swallowed, there are three resets, as in one chunk |
| PrepareDirs.KeptStep | scripts/ctf2tef.py:735-750 | What is kept of a trace file is its first complete packet larger than a header followed by what is kept of the rest, or nothing |
| PrepareDirs.PrepareDir | scripts/ctf2tef.py:735-750 | The read loop, with short reads at the end of the file, copies exactly the complete packets before the first bare header or unfinished packet |
| PrepareDirs.KeptIsStable | scripts/ctf2tef.py:734-750 | Filtering a filtered trace changes nothing |
| PrepareDirs.OfflineAgreesWithLive | scripts/ctf2tef.py:735-750 | For a trace without tags and every chunking of the tag followed by it, the bytes kept offline are the concatenated packets forwarded live if and only if no packet of the trace has exactly four bytes |
| PrepareDirs.BareHeaderStops | scripts/ctf2tef.py:739-740 | A bare header in front of a packet of five bytes: nothing is kept offline, both packets are forwarded live |
| RenodeMachines.RenodeMachine.constructor | scripts/run_renode.py:259-264 | The capture starts with nothing written, buffered or closed |
| RenodeMachines.RenodeMachine.ProcessData | scripts/run_renode.py:259-264 | The bytes read are appended and at most one tag is handled; the new state is a function of the old one and these bytes |
| RenodeMachines.RenodeMachine.HandleTraces | scripts/run_renode.py:268-299 | One step on what is buffered: a tag behind other bytes opens the file of the next number, which leaves all others as they are, a tag at the front opens none, otherwise all but 16 bytes are written |
| RenodeMachines.RenodeMachine.Cleanup | scripts/run_renode.py:301-310 | The buffered bytes end up at the end of the last file; the files by number are those of the abstract capture, none overwritten |
| RenodeMachines.PollKeepsCut | scripts/run_renode.py:268-299 | Every poll keeps the splitting invariant, which rests on an open non-empty file having at least a tag's length of non-tag bytes buffered; a poll removes at most one waiting tag |
| RenodeMachines.PollWrites | scripts/run_renode.py:288-299 | A poll that finds no tag loses no byte and writes all but at most a tag's length of them |
| RenodeMachines.ClosedFilesRefineSplit | scripts/run_renode.py:268-299 | At any time, for every content and every cutting into reads, the closed files followed by the non-empty pieces of what is in hand are the non-empty pieces of the whole stream |
| RenodeMachines.FilesExactIff | scripts/run_renode.py:268-310 | After closing, the files are the non-empty pieces of the stream if and only if no tag is waiting in the buffer |
| RenodeMachines.IdlePollsDrain | scripts/run_renode.py:268-286 | One poll without new bytes for every waiting tag leaves none waiting |
| RenodeMachines.TwoTagsInOneRead | scripts/run_renode.py:301-310 | Two tags in one read and an immediate end: the second tag ends up inside a file |
| CtfFileHandlers.CtfFileHandler.constructor | west/west-zpl.py:38-63 | Starts before the first file when a tag is expected, otherwise in file 0, and removes an old file 0 |
| CtfFileHandlers.CtfFileHandler.SaveIntegralChunk | west/west-zpl.py:65-101 | The new files, file number and found flag as a function of the old ones and the chunk; the path always belongs to the number |
| CtfFileHandlers.CtfFileHandler.SaveChunk | west/west-zpl.py:103-140 | The new files and the new window as a function of the old ones and the chunk |
| CtfFileHandlers.CtfFileHandler.Close | west/west-zpl.py:142-156 | The window is flushed, and the error is raised exactly when a start tag is expected and none was found |
| CtfFileHandlers.IntegralLogged | west/west-zpl.py:78-101 | Saving a chunk appends it to the log of what was written, a new entry beginning at its first tag, and leaves all files but the current and the next one alone |
| CtfFileHandlers.FilesCreated | west/west-zpl.py:78-101 | A chunk creates the file it goes to, and the one before its tag, even if it has no byte for them, and no other; the number grows by one exactly at a tag |
| CtfFileHandlers.SaveConserves | west/west-zpl.py:119-140 | Every chunk keeps: dropped bytes and files, joined by tags, followed by the window are the bytes received |
| CtfFileHandlers.BytesConserved | west/west-zpl.py:65-140 | The same after any sequence of chunks with any content, whatever files an earlier capture left behind |
| CtfFileHandlers.EmptyChunksIgnored | west/west-zpl.py:118-120 | Empty chunks, wherever they come, make no difference |
| CtfExactness.FirstTagIff | west/west-zpl.py:27 | The tag behind a piece is the first one found exactly when the piece holds no tag and does not end with all of a tag but its last byte |
| CtfExactness.FilesWritten | west/west-zpl.py:65-156 | From any state that accounts for the bytes received so far: after more chunks and closing, dropped bytes and files are, in order, what the chunks push out of the window and what is left in it, cut at the first tag of every such write, and joined by tags they are all bytes received |
| CtfExactness.WriteCuts | west/west-zpl.py:65-101 | One write keeps exactly cut files so if and only if it is clean: its first tag is the first tag behind the last piece, and no other follows in it. Files that are not cut exactly never become so again |
| CtfExactness.FilesExactIff | west/west-zpl.py:65-156 | For all chunks and all files left by an earlier capture: dropped bytes and files are exactly the leftmost pieces of the stream if and only if every write that the chunks cause is clean, which is decided by the chunks alone |
| CtfExactness.FilesTell | west/west-zpl.py:65-156 | After the fact the files themselves tell: pieces that give the stream back when joined by tags are its leftmost pieces if and only if none holds a tag and none but the last ends with all of a tag but its last byte |
| CtfExactness.FilesExact | west/west-zpl.py:65-156 | With chunks of 15 to m bytes (the last may be shorter) and tags at least 2m bytes apart every write is clean, so dropped bytes and files are exactly the leftmost pieces, and a tag was found exactly when the stream holds one |
| CtfExactness.ShortChunkLosesTag | west/west-zpl.py:121-140 | A tag in three pieces behind any number of zeros, the middle piece of five bytes: the stream holds it, and it is found if and only if the first chunk is shorter than 15 bytes |
| Instrumentation.InstrumentationCapture.constructor | west/west-instrumentation.py:121-123 | At first it is not known whether a message is being sent |
| Instrumentation.InstrumentationCapture.Read | west/west-instrumentation.py:186-206 | Received bytes are processed together with the buffered ones; at an init tag the file is closed after that, a new one is begun outside a message, and nothing of what came behind the tag is left for it |
| Instrumentation.InstrumentationCapture.ProcessBuff | west/west-instrumentation.py:137-173 | The loop ends, the buffer getting shorter in every round but the last, with the file, mode and buffer that scanning the buffer for start and end tags by turns calls for |
| Instrumentation.InstrumentationCapture.Flush | west/west-instrumentation.py:161-170 | Letting go of all but 18 bytes changes nothing of the outcome |
| Instrumentation.Keep | west/west-instrumentation.py:161-170 | What is held back is the end of the buffer, all of it or exactly the length of the init tag |
| Instrumentation.ScanAppend | west/west-instrumentation.py:137-173 | Scanning continues where it stopped: payloads and tags found so far are final |
| Instrumentation.ChunkingDoesNotMatter | west/west-instrumentation.py:137-173 | Starting outside a message, for every stream and every chunking, file, mode and buffer are those of scanning the whole stream at once |
| Instrumentation.PayloadsExtracted | west/west-instrumentation.py:137-173 | For texts without start tag and payloads without end tag, sent by turns, the file is the payloads one after the other, for every chunking |
| Instrumentation.UnknownStartIff | west/west-instrumentation.py:121-173 | Starting without knowing the mode, for every stream and every chunking: the file is that of a known start behind the text still buffered before the first tag, if that tag is an end tag; so the two are the same if and only if there is no such text |
| Instrumentation.UnknownStart | west/west-instrumentation.py:121-173 | In particular file, mode and buffer are the same once a start tag was seen, provided no end tag is complete before it |
| Instrumentation.TextTakenForPayload | west/west-instrumentation.py:152-159 | Without that proviso, text before an end tag goes to the file |
| Instrumentation.UnknownStartDependsOnChunks | west/west-instrumentation.py:139-159 | Text and an end tag, then a start tag: in two chunks the text goes to the file, in one it does not |
| Instrumentation.InitTagNeverSeen | west/west-instrumentation.py:187-206 | In a stream without the init tag it never shows up in the buffer, whatever the mode at the start |
| TraceRepair.RemoveEventsWithoutBeginning | scripts/prepare_trace.py:457-507 | The four passes together compute the repaired trace: the trace without unmatched ends, followed by an end for every open begin, the latest first, at its thread's last time plus 0.1 |
| TraceRepair.FindUnmatched | scripts/prepare_trace.py:463-475 | Finds the open begins, latest first, and increasing positions whose removal leaves the kept events |
| TraceRepair.PopEach | scripts/prepare_trace.py:476-479 | Popping increasing positions from the last one down, every index in range |
| TraceRepair.LastTimestamps | scripts/prepare_trace.py:485-495 | The last timestamp of every thread with an open begin: no later lookup misses |
| TraceRepair.AddEnds | scripts/prepare_trace.py:496-505 | Appends one end per open begin, in that order |
| TraceRepair.OpenThreads | scripts/prepare_trace.py:485-500 | Every open begin is an event that is kept, so its thread has a last timestamp |
| TraceRepair.DroppedIff | scripts/prepare_trace.py:472-479 | An end is dropped exactly when no begin of its name, thread and process is waiting; nothing else is dropped |
| TraceRepair.RepairedIsBalanced | scripts/prepare_trace.py:457-507 | In every repaired trace each prefix has at least as many begins as ends of every name, thread and process, and totals are equal |
| TraceRepair.UnchangedIff | scripts/prepare_trace.py:457-507 | Repair changes nothing if and only if the trace is balanced |
| TraceRepair.RepairIsIdempotent | scripts/prepare_trace.py:457-507 | A second repair changes nothing |
| TraceRepair.RepairedInOrder | scripts/prepare_trace.py:485-507 | A thread whose events, metadata included, are in time order stays so |
| TraceRepair.RepairedEventsInOrderIff | scripts/prepare_trace.py:485-507 | A thread whose begins and ends are in time order, whatever the times of its metadata, stays so if and only if no end is added for it or its last kept event is not more than 0.1 before its last kept begin or end |
| TraceRepair.AddedEndsAreLater | scripts/prepare_trace.py:496-505 | What is added are ends; on a thread whose begins and ends are in time order they are later than all kept begins and ends of the thread if and only if they are later than the last one |
| TraceRepair.AddedEndTime | scripts/prepare_trace.py:485-505 | What is added are ends, each 0.1 after the last event kept of its thread, metadata included |
| TraceNesting.RepairedWindow | scripts/prepare_trace.py:457-507 | If a thread's events are a window of something well nested, its repaired events are well nested, and as many ends are dropped as it closed begins from before the window |
| FixTimestamps.FixTimestamps | scripts/prepare_trace.py:510-591 | The pass over the begins followed by the removals, a failed removal being an index error |
| FixTimestamps.ExtendEnd | scripts/prepare_trace.py:544-578 | The cursor loop ends (each round has fewer Zephelin events after the cursor) with the extended end |
| FixTimestamps.PopDown | scripts/prepare_trace.py:580-581 | Removal at given positions one after the other, or an index error |
| FixTimestamps.LaterLess | scripts/prepare_trace.py:544-578 | Moving the cursor to the end of an event after it leaves fewer events after the cursor |
| FixTimestamps.FixGrows | scripts/prepare_trace.py:523-578 | Only timestamps of ends change, and only to later times |
| FixTimestamps.EndTimeIs | scripts/prepare_trace.py:523-578 | The time of an end at any moment of the pass depends only on the begins whose first later end it is |
| FixTimestamps.MarkedIff | scripts/prepare_trace.py:538-542 | Marked are exactly the begins that find their first later end earlier than themselves when their turn comes, and these ends |
| FixTimestamps.RemovalExactIff | scripts/prepare_trace.py:523-581 | For all traces the removals take out exactly the marked events if and only if no two begins find the same end too early |
| FixTimestamps.UnrelatedEventLost | scripts/prepare_trace.py:540-581 | Two begins that share an early end behind them cost the event behind that, whatever it is |
| FixTimestamps.NothingMarkedIff | scripts/prepare_trace.py:538-542 | Nothing is marked if and only if no begin finds its first later end too early |
| FixTimestamps.NothingMarked | scripts/prepare_trace.py:538-542 | In a trace whose begins and ends are in time order on every thread nothing is marked |
| FixTimestamps.OrderedTraceIsOnlyStretched | scripts/prepare_trace.py:510-591 | On such a trace the method never fails, removes nothing and only moves ends to later times |
| TraceAdjustment.AdjustInstrumentationTrace | scripts/prepare_trace.py:630-633 | Both repairs in a row; if begins and ends, and the ends that are added, are in time order on every thread, they succeed and leave every begin ended |
| TraceAdjustment.AdjustedTrace | scripts/prepare_trace.py:630-633 | For such traces the outcome is balanced, differs from the repaired trace only by later ends, and is well nested on every thread whose events are a window of something well nested |
| TraceAdjustment.RenamedThreadLosesEvent | scripts/prepare_trace.py:423-581 | A thread's name at time 0, an open event, a new name of the thread at time 0 and an end without begin, as the list is built: the event is ended at time 0.1 and removed |
| TraceAdjustment.BalancedEventsLost | scripts/prepare_trace.py:630-631 | A balanced trace of four events, which the first repair leaves alone, loses all of them although only three are marked |
| OwnEnds.NestedIsPaired | scripts/prepare_trace.py:526-537 | In a well-nested thread every begin has its own end, and begins and ends nest |
| OwnEnds.FirstEndIsOwnIff | scripts/prepare_trace.py:526-537 | For every begin of a well-nested thread the end that is looked up is its own if and only if it encloses no event of its name |
| OwnEnds.LaterEndIsOwnIff | scripts/prepare_trace.py:559-568 | For every ended scope of a Zephelin thread in time order, which may lack begins and ends, the later end that is looked up is its own if and only if it has positive length and encloses none of its name that ends later than it begins |
| Containment.OwnFoundHidesNothing | scripts/prepare_trace.py:544-578 | If every Zephelin begin inside a span is ended and finds its own end, no lookup inside the span hides an interval that ends behind it |
| Containment.ExtendIsLeast | scripts/prepare_trace.py:544-578 | If every Zephelin begin inside the event is ended and finds its own end, the extended end is the least time that is not earlier and by which every interval that begins inside the event has ended |
| Containment.ExtendContains | scripts/prepare_trace.py:544-578 | If no lookup in a span hides an interval that ends behind it, visiting children from end to end extends the event over all that begin in the span, also when its end has been moved beyond the span before |
| Containment.AllSpansIff | scripts/prepare_trace.py:544-578 | For every Zephelin thread in time order: every event of the thread, whenever it begins and ends, is extended over all intervals that begin inside it if and only if no lookup hides an interval |
| Containment.ChildrenContained | scripts/prepare_trace.py:523-578 | After the whole pass every Zephelin interval that begins between an instrumentation begin and the original time of the first later end of its name, thread and process ends by that end's final time, if no lookup in between hides one |
| Containment.MovedInTime | scripts/prepare_trace.py:523-578 | A begin does not find its first later end too early, although it is, if an earlier begin that shares it has moved it for an interval that lasts long enough |
| Containment.OwnEndIsLatest | scripts/prepare_trace.py:523-578 | On a well-nested thread without recursion, if every Zephelin begin inside an event finds its own end, the event's final end is the latest of its original one and the ends of the intervals that begin inside it |
| Containment.OwnContainedIff | scripts/prepare_trace.py:523-578 | For every event of a well-nested thread: for all Zephelin traces in time order that hide nothing in it, intervals that begin inside it end inside it after the pass, if and only if it encloses no event of its name or has no positive length |
| Containment.ZephelinTraceIff | scripts/prepare_trace.py:523-578 | For every Zephelin thread in time order: all events of all well-nested instrumentation threads that enclose no event of their name contain what begins inside them after the pass if and only if no lookup hides an interval |
| Containment.AdjustedContained | scripts/prepare_trace.py:630-631 | After both repairs every begin of a thread whose events were a window of something well nested has its own end, and contains what begins inside it unless it encloses an event of its name or a lookup inside it hides something |
| Containment.RecursionNotContained | scripts/prepare_trace.py:526-578 | Two nested calls of one function, in time order, and an interval that begins in the outer one and ends behind it, in a trace that hides nothing: nothing is moved |
| Containment.UnfinishedScopeHidesChild | scripts/prepare_trace.py:559-571 | Behind a Zephelin begin without an end, as in a truncated trace, an interval that ends later than the event is not visited, and the event keeps its end |
| Containment.EmptyScopeHidesChild | scripts/prepare_trace.py:559-571 | The same behind an interval that begins and ends at one time |
| Containment.ReenteredScopeHidesItself | scripts/prepare_trace.py:559-578 | An interval that encloses one of its own name, which ends inside the event, is taken to end there |
| CommonPrefix.CommonPrefixBisect | scripts/extract_tvm_model_data.py:243-267 | The bisection finds the longest common prefix and never None |
| CommonPrefix.GetCommonPrefix | scripts/extract_tvm_model_data.py:270-298 | None exactly for no names, otherwise the longest common prefix of all names |
| CommonPrefix.LcpAllLongest | scripts/extract_tvm_model_data.py:270-298 | It is a prefix of every name, and every common prefix is a prefix of it |
| CommonPrefix.FewerNames | scripts/extract_tvm_model_data.py:240 | It depends only on the set of names, and fewer names have a longer one |
| ModelNumbers.LookUp | scripts/extract_tvm_model_data.py:373-384 | The number found or given is the position of the resolved prefix in order of registration, counted from the first free number; the dictionary grows by at most that prefix |
| ModelNumbers.ResolveIs | scripts/extract_tvm_model_data.py:373-379 | A prefix stands for itself if it is registered or no registered one is a prefix of it, otherwise for the first registered one that is |
| ModelNumbers.RegisterIff | scripts/extract_tvm_model_data.py:373-383 | A prefix is registered, behind all others, if and only if none of them is a prefix of it |
| ModelNumbers.ResolveFull | scripts/extract_tvm_model_data.py:373-379 | A prefix that is a model's own or longer resolves to that model's own |
| ModelNumbers.TableIsSeen | scripts/extract_tvm_model_data.py:373-384 | The dictionary holds exactly the full prefixes of the models seen, in order of appearance |
| ModelNumbers.NumberIsPosition | scripts/extract_tvm_model_data.py:373-384 | An inference gets the position of its model among those seen, also when it was interrupted |
| ModelNumbers.SameNumberIff | scripts/extract_tvm_model_data.py:373-384 | Two inferences get the same number if and only if they ran the same model, and the numbers used have no gap from the first free one on |
| ModelNumbers.InterruptedIsLonger | scripts/prepare_trace.py:193-199 | Running only some functions of a model can only lengthen the prefix; running all, in any order and any number of times, gives the model's own |
| InferenceNumbers.ScanIsValid | scripts/extract_tvm_model_data.py:355-401 | Finished inferences pair a begin with a later end of the same thread; those of one thread do not overlap |
| InferenceNumbers.RunsIff | scripts/extract_tvm_model_data.py:355-371 | Exactly those inferences are finished whose begin and end have no begin or end of an inference of the thread between them and whose end carries a prefix |
| InferenceNumbers.FindEndMargin | scripts/extract_tvm_model_data.py:386-389 | The margin reaches to the end of that range: to the first later event of the thread, or to the last event; it keeps its previous value, if any, when no event follows |
| InferenceNumbers.RangeEndIff | scripts/extract_tvm_model_data.py:386-393 | Behind an exit the range holds exactly the events up to which no event of the thread has a later time, whatever their order, but never the last event of the trace |
| InferenceNumbers.UpdateEvents | scripts/extract_tvm_model_data.py:391-400 | Exactly the model events of the thread in the range, and the inference's begin and end, get the number; the end loses its prefix argument |
| InferenceNumbers.TvmRecalculateModelNumbers | scripts/extract_tvm_model_data.py:353-401 | The renumbered trace and the dictionary in order of registration; fails exactly when the first finished inference ends with the last event of the trace |
| InferenceNumbers.EndOfTraceFails | scripts/extract_tvm_model_data.py:387-393 | A trace of one inference, whose end is its last event, is such a trace |
| InferenceNumbers.ApplySame | scripts/extract_tvm_model_data.py:391-400 | Nothing but model numbers, and prefix arguments of inference ends, ever changes |
| InferenceNumbers.OthersUntouched | scripts/extract_tvm_model_data.py:385-400 | An event that is no begin, end or model event of a finished inference stays as it is |
| InferenceNumbers.ChangedOnlyIf | scripts/extract_tvm_model_data.py:385-400 | Only begins and ends of finished inferences change, and model events of the thread between these or behind the end but not behind a later event of the thread |
| InferenceNumbers.AllNumbered | scripts/extract_tvm_model_data.py:355-401 | In the final trace every finished inference, with the model events inside it, carries its own number: later ones do not overwrite earlier ones |
| InferenceNumbers.LastRangeNumbers | scripts/extract_tvm_model_data.py:386-396 | A model event in the range of an inference, also behind its end, carries the number of the last inference in whose range it lies |
| InferenceNumbers.SameNumberInTrace | scripts/extract_tvm_model_data.py:355-401 | In the final trace two finished inferences carry the same number if and only if they ran the same model |
| InferencePrefixes.TvmEvents.constructor | scripts/prepare_trace.py:105-106 | Nothing has been collected for any thread |
| InferencePrefixes.TvmEvents.TvmOpName | scripts/prepare_trace.py:129-148 | An operator that is entered joins what its thread ran, under its full name; other threads are left alone; the name returned is the shortened one |
| InferencePrefixes.TvmEvents.InferenceAdditionalArgs | scripts/prepare_trace.py:184-200 | The end of an inference gets the longest common prefix of what its thread ran since its last inference ended, if there is one that is not empty, and collection starts anew |
| InferencePrefixes.CtfToTef | scripts/ctf2tef.py:579-605 | The conversion loop gives every inference end that prefix and keeps the order of the messages that yield events, whatever other messages, with or without events, come in between |
| InferencePrefixes.ConvertedEvent | scripts/ctf2tef.py:245-275 | Every event has the thread and time of its message, begins exactly for messages of entering, is an inference or an operator exactly if the message is; only ends of inferences carry a prefix, the longest common one of what ran, if that is not empty |
| InferencePrefixes.YieldingAll | scripts/ctf2tef.py:579-605 | No message that yields an event is lost, doubled or moved, however many others come in between |
| InferencePrefixes.FinishedIff | scripts/ctf2tef.py:257-269 | The finished inferences of the converted trace are exactly those entered and left with no other inference message of the thread in between and with operators that have a common prefix |
| InferencePrefixes.RanIff | scripts/prepare_trace.py:129-200 | What is collected for a thread is exactly the operators entered on it with no inference end of the thread in between |
| InferencePrefixes.NumbersTellModels | scripts/prepare_trace.py:129-200 | From messages to numbers: if inferences run functions of their model only, the first of each model all of them, and no model's prefix is a prefix of another's, then after conversion and renumbering two finished inferences carry the same number if and only if they ran the same model |
| LiveNumbers.ModelIds.constructor | scripts/prepare_trace.py:47-48 | No model has a number |
| LiveNumbers.ModelIds.InferenceModelNumber | scripts/prepare_trace.py:173-182 | An id that is new gets the count of models as its number, any other keeps its own |
| LiveNumbers.ModelIds.RenumberIncrement | server/handlers/trace_handler.py:635-644 | The id 0 is taken out, the increment is renumbered from the count of models on, and its prefixes are registered; if the renumbering fails, only the first happens |
| LiveNumbers.LiveNumbersTellModelsIff | server/handlers/trace_handler.py:635-644 | Over all increments, with any ids reported in between: finished inferences carry the same number exactly when they ran the same model, if and only if no model finishes inferences in two increments |
| LiveNumbers.LaterIsHigher | server/handlers/trace_handler.py:639-643 | An increment whose models have not come before has smaller numbers than every later one |
| LiveNumbers.StepConsecutiveIff | server/handlers/trace_handler.py:635-644 | If the numbers of all models are consecutive and all different, they are so after an increment if and only if its prefixes are new and the id 0, if there, was registered last |
| LiveNumbers.ConsecutiveIff | server/handlers/trace_handler.py:635-644 | Over a whole run the numbers stay consecutive and different if and only if this holds at every increment |
| LiveNumbers.RecurringModel | server/handlers/trace_handler.py:635-644 | Three increments with one inference each, the first two of the same model: it gets the numbers 0 and 1, the other model 1 |
| LiveNumbers.ZeroReportedFirst | scripts/prepare_trace.py:174-175 | The id 0 is reported, then another one, then an increment comes: the other model and the first TVM model both have the number 1 |
| LivePipeline.TraceHandler.constructor | server/handlers/trace_handler.py:152-175 | The empty pipeline, streaming off |
| LivePipeline.TraceHandler.ExtractTraceIncrement | server/handlers/trace_handler.py:646-661 | New events are appended; exactly the thread names that are new or changed are returned, and all names are recorded |
| LivePipeline.TraceHandler.ParseAndEmitDiff | server/handlers/trace_handler.py:675-701 | One round: received, then either a batch of the earlier half is queued with the waiting names, or a status |
| LivePipeline.TraceHandler.EmitLoop | server/handlers/trace_handler.py:721-753 | One round: the oldest queued message is delivered |
| LivePipeline.TraceHandler.Collect | server/handlers/trace_handler.py:487-523 | Succeeds exactly when events are pending and streaming is off, and then delivers what is pending |
| LivePipeline.TraceHandler.SetStreaming | server/handlers/trace_handler.py:338-364 | Changes nothing but the streaming flag |
| LivePipeline.TraceHandler.ExecuteReset | server/handlers/trace_handler.py:793-828 | The empty pipeline with the streaming flag as it was |
| LivePipeline.RunConserves | server/handlers/trace_handler.py:486-753 | Over all runs of increments, emits, collects, streaming changes and resets: the events parsed since the last reset are, as a multiset, those delivered, queued and pending |
| LivePipeline.DeliveredAtMostOnce | server/handlers/trace_handler.py:486-753 | No event is delivered more often than it was parsed |
| LivePipeline.TraceIsParsed | server/handlers/trace_handler.py:646-661 | Over all runs the trace is what was parsed since the last reset, in order, and the table of names what these increments make of an empty one |
| LivePipeline.CollectedInParseOrder | server/handlers/trace_handler.py:486-523 | Without streaming every increment only queues a status, and what was collected followed by what still can be is the trace as it was parsed |
| LivePipeline.ResetForgets | server/handlers/trace_handler.py:793-815 | Whatever comes before a reset and after it: the pipeline ends up as if it had started empty at the reset, with the streaming flag it had |
| LivePipeline.NewNamesSuffice | server/handlers/trace_handler.py:648-659 | Announcing only new or changed names leads to the same table as announcing all |
| LivePipeline.NewNamesAreNew | server/handlers/trace_handler.py:648-659 | No name is announced that is known already |
| LivePipeline.RenamedIs | server/handlers/trace_handler.py:648-659 | The table holds for every thread that was ever named its last name |
| LivePipeline.NoNameLost | server/handlers/trace_handler.py:486-753 | Over all runs, with streaming on or off: the current name of every thread has been announced since the last reset, or is queued, or waits |
| LivePipeline.CollectKeepsNamesIff | server/handlers/trace_handler.py:502-516 | If announced, queued and waiting names make up the table, they still do after a collect if and only if it was refused or no thread has a waiting name that differs from one queued |
| LivePipeline.StaleName | server/handlers/trace_handler.py:502-516 | Streaming is turned off while a name is queued, the thread is renamed and the new name collected: in the end the frontend has the old one |
| LivePipeline.StreamingNeverOvertakes | server/handlers/trace_handler.py:503-505 | While streaming is never turned off no collect overtakes anything |
| LivePipeline.FrontendKnowsNames | server/handlers/trace_handler.py:648-696 | In every run in which no collect overtakes a queued name that has changed since: once queue and waiting names are drained, the names announced make up the current table |
| LivePipeline.SortByTsSorts | server/handlers/trace_handler.py:687 | The sorted events are the same events in time order |
| LivePipeline.SortByTsIsStable | server/handlers/trace_handler.py:687 | Events of the same time keep their order |
| LivePipeline.BatchIsEarlierHalf | server/handlers/trace_handler.py:687-696 | A batch is half of what is pending (rounded down, at least one), in time order, none later than what stays |
| LivePipeline.OneMessage | server/handlers/trace_handler.py:684-701 | Every increment queues one message: a batch exactly if streaming is on and the last batch was long enough ago, otherwise a status, and all that was received waits |
| LivePipeline.BatchesDrain | server/handlers/trace_handler.py:686-696 | While streaming, as many increments without events as there are pending events leave nothing pending |
| LivePipeline.DeliveredInOrder | server/handlers/trace_handler.py:686-753 | With streaming always on and increments never earlier than what was batched, the delivered events are in time order at every moment of every run |
| LivePipeline.OrderKeptIff | server/handlers/trace_handler.py:686-696 | At a batch the order is kept if and only if no new event is earlier than something already batched |
| UartFrames.SendDataViaUart | samples/multi_machine/micro_speech/preprocessor/src/main.cpp:128-143 | Puts the frame of the payload on the line: header, forty bytes, footer |
| UartFrames.TwosComplement | samples/multi_machine/micro_speech/micro_speech/src/main.cpp:156-158 | A byte and the signed number it stands for have the same bits, at the sender and at the receiver |
| UartFrames.MicroSpeech.constructor | samples/multi_machine/micro_speech/micro_speech/src/main.cpp:27-32 | Waiting for a header with nothing received |
| UartFrames.MicroSpeech.ProcessUartByte | samples/multi_machine/micro_speech/micro_speech/src/main.cpp:133-176 | One byte moves the receiver, buffers and indices as its automaton says, every index in range |
| UartFrames.MicroSpeech.TakePayload | samples/multi_machine/micro_speech/micro_speech/src/main.cpp:163-169 | As much of the payload as fits is appended to the input; a full input is handed to the inference |
| UartFrames.MicroSpeech.HandleInferenceCycle | samples/multi_machine/micro_speech/micro_speech/src/main.cpp:96-130 | The inference gets the whole input, which is emptied only if it succeeds |
| UartFrames.PayloadAfterFirstHeader | samples/multi_machine/micro_speech/micro_speech/src/main.cpp:142-154 | From waiting, a payload starts exactly after the first `AA BB` of the stream, and never without one |
| UartFrames.FooterDecides | samples/multi_machine/micro_speech/micro_speech/src/main.cpp:156-174 | Header, forty bytes and one more byte: the payload is accepted exactly when that byte is the footer, otherwise nothing changes but the state; in both cases a header is awaited next |
| UartFrames.RoundTrip | samples/multi_machine/micro_speech/micro_speech/src/main.cpp:133-176 | For all payloads of forty bytes sent with gaps free of `AA BB`, exactly these payloads are accepted, in order |
| UartFrames.InferenceEvery49Frames | samples/multi_machine/micro_speech/micro_speech/src/main.cpp:163-169 | When inferences succeed, every 49th accepted frame triggers one on the last 49 payloads, and the input is the payloads since |
| UartFrames.FullIffFailed | samples/multi_machine/micro_speech/micro_speech/src/main.cpp:96-130 | Over all accepted payloads the input is full if and only if the last inference failed, and then it is that inference's input |
| UartFrames.FailedInferenceRepeats | samples/multi_machine/micro_speech/micro_speech/src/main.cpp:163-169 | After a failed inference every further frame repeats it on the same input and its payload is dropped, as long as it fails; when it succeeds the input is emptied |
| UartFrames.Resync | samples/multi_machine/micro_speech/micro_speech/src/main.cpp:142-175 | After any bytes whatever, 42 bytes other than `AA` lead back to waiting for a header |
| UartFrames.ResyncIsTight | samples/multi_machine/micro_speech/micro_speech/src/main.cpp:142-175 | 41 bytes do not suffice |
| Profilers.OperatorProfiler.constructor | zpl/profilers/tvm/tvm_profiler.c:20-46 | No events, none emitted, buffers of the configured capacity |
| Profilers.OperatorProfiler.BeginEvent | zpl/profilers/tflm/tflm_profiler.cpp:25-69 | The handle is the event's position, or -1 as an unsigned number when the buffers are full; the new state as a function of the old one |
| Profilers.OperatorProfiler.EndEvent | zpl/profilers/tflm/tflm_profiler.cpp:71-101 | Stores or emits the exit of a handle within the capacity, ignores all others |
| Profilers.OperatorProfiler.DumpEvents | zpl/profilers/tflm/tflm_profiler.cpp:103-126 | If enabled, emits enter and exit of every buffered event in order (delayed emission only) and empties the buffers |
| Profilers.ModesAgree | zpl/profilers/tvm/tvm_profiler.c:65-135 | At every moment of every well-used run, immediate emission has emitted what delayed emission has, plus the enters of the buffered events and the exits of those that ended |
| Profilers.SameRecordsAfterDump | zpl/profilers/tflm/tflm_profiler.cpp:25-126 | If every accepted handle is ended once before the next enabled dump, both modes have emitted the same multiset of records after a dump |
| Profilers.SameSequenceAfterDump | zpl/profilers/tflm/tflm_profiler.cpp:25-126 | If operators do not overlap, they have emitted the same sequence |
| Profilers.PastCapacityIgnored | zpl/profilers/tflm/tflm_profiler.cpp:25-126 | In both modes any run is the same as the run without the begins past the capacity and the ends of the handles these returned |
| Profilers.BuffersHold | zpl/profilers/tflm/tflm_profiler.cpp:25-101 | In every run and both modes the buffers hold, for every handle, the operator of the last accepted begin with it, and in delayed mode the times of that begin and of the last end |
| Profilers.EmittedIsCalled | zpl/profilers/tflm/tflm_profiler.cpp:25-101 | In every run immediate emission has emitted exactly an enter of its operator for every accepted begin and an exit of the operator last begun with the handle for every end within the capacity, in the order of the calls |
| Profilers.DumpedIsCalled | zpl/profilers/tflm/tflm_profiler.cpp:103-126 | In a well-used run so has delayed emission after an enabled dump, as often, and in the same order if operators do not overlap |
| Profilers.HeldSince | zpl/profilers/tflm/tflm_profiler.cpp:25-69 | Until the next enabled dump the handle that a begin returned stands for its operator and time |
| DenseKernel.PackedAt | samples/common/tvm/src/sine.c:123-131 | Where the weight of a row and column is packed, within the 256 places |
| DenseKernel.PackWeights | samples/common/tvm/src/sine.c:121-131 | Every place of the packed weights is filled with the weight it stands for |
| DenseKernel.ComputeTile | samples/common/tvm/src/sine.c:134-147 | The eight sums of a tile are the plain dot products of its eight rows, without overflow of 32 bits |
| DenseKernel.DotBound | samples/common/tvm/src/sine.c:138-147 | With inputs and weights up to 255 a sum of n products is at most n times 255 squared |
| DenseKernel.DotUpdate | samples/common/tvm/src/sine.c:138-147 | Changing one input by some difference changes the sum by that times the input's weight (and the sum over zeros is zero) |
| DenseKernel.Finish | samples/common/tvm/src/sine.c:150-164 | Bias, 64-bit scaling, rounding shift, zero point and clipping give the requantised value, without overflow |
| DenseKernel.RoundsToNearest | samples/common/tvm/src/sine.c:152-161 | The rounding shift gives the integer nearest to the exactly scaled value, halves going up |
| DenseKernel.UnitIsPow2 | samples/common/tvm/src/sine.c:150-161 | The layers divide by the powers of two that they shift by |
| DenseKernel.OneRounded | samples/common/tvm/src/sine.c:150-161 | There is exactly one nearest integer, halves going up |
| DenseKernel.RequantizedSaturates | samples/common/tvm/src/sine.c:149-164 | Requantising gives the zero point plus the integer nearest to the scaled value, or the end of the eight-bit range that this exceeds |
| DenseKernel.Layer1Saturates | samples/common/tvm/src/sine.c:134-165 | Output j of the middle layer is the product of row j with the input plus bias j, scaled by 1799926384 / 2^36, so requantised |
| DenseKernel.Layer0Saturates | samples/common/tvm/src/sine.c:67-99 | Output j of the first layer is the product of the input with weight j plus bias j, scaled by 1169592283 / 2^37, so requantised |
| DenseKernel.DenseMultiplyAddClipCast1 | samples/common/tvm/src/sine.c:107-168 | The packed and tiled 16 by 16 layer gives for every output the zero point plus the nearest integer to the plain row product plus bias, scaled by 1799926384 / 2^36, saturated, with all indices in range and no overflow |
| DenseKernel.DenseMultiplyAddClipCast | samples/common/tvm/src/sine.c:48-102 | The same for the first layer of one input and sixteen outputs |
| DenseKernel.DenseMultiplyAddClipCast2 | samples/common/tvm/src/sine.c:173-207 | The same for the last layer of sixteen inputs and one output with its fixed zero point |
| DenseKernel.ReshapeCastSubtract1 | samples/common/tvm/src/sine.c:230-246 | Inputs minus a zero point in eight bits are within the bound the layers need |

## Left out

- ChunkIndependence.ChunkingDoesNotMatter: streams with a piece that is not tag-safe are outside it, because there the result does depend on the chunking; `ChunkIndependence.TagRecognisedIff` and `LostTags.ResetsAgreeIff` say exactly which pieces and streams those are.
- LostTags.ResetsAgreeIff: streams in which the tag behind a piece that is not tag-safe shares a byte (`_`) with another are outside it: there the rest of a swallowed tag can make up a tag with the bytes behind it (`LostTags.OverlapHidesLoss`).
- CtfExactness.FilesExact: the hypotheses on chunk sizes and on the distance of tags are sufficient, not necessary; `CtfExactness.FilesExactIff` has the exact condition.
- InferenceNumbers.TvmRecalculateModelNumbers: does not model the branch for unfinished inferences (scripts/extract_tvm_model_data.py:403-441), which indexes a dictionary keyed by strings with a position.
- InferencePrefixes.CtfToTef: names and arguments that are copied over are left out; the thread of a message, and whether it yields an event, are given.
- InferencePrefixes.TvmEvents.TvmOpName: the pattern that shortens names is any function.
- LiveNumbers.ModelIds.RenumberIncrement: for a server that was given TVM models; without them increments are not renumbered. Inferences that are spread over two increments are finished in neither, as in the original.
- LiveNumbers.ModelIds.InferenceModelNumber: the record of the model that is active on a thread is left out.
- LivePipeline.TraceHandler.ExecuteReset: resets are one step that does not overlap another; the flush of pending events when the batching task is cancelled goes to a queue that the reset replaces and is left out.
- LivePipeline.TraceHandler.ParseAndEmitDiff: whether the last batch is long enough ago is a free choice of every step, and emits succeed; the events of an increment are given, after the renumbering of `LiveNumbers.ModelIds.RenumberIncrement`.
- Profilers.OperatorProfiler.EndEvent: handles are unsigned; in the TVM profiler a handle of -1 passes the signed comparison, so its callers are taken to pass none.
- Profilers.OperatorProfiler.BeginEvent: the parallel arrays that describe an operator are one array of descriptions, already in the width in which they are emitted; what immediate emission stores but never reads (arena usage) is left out.
- TraceRepair.RemoveEventsWithoutBeginning: lists of events are values that go in and come out; that the original also changes the list of its caller is not captured. The same holds for `fix_timestamps` and `tvm_recalculate_model_numbers`.
- RenodeMachines.RenodeMachine.HandleTraces: the local file only; the remote socket, which does not get the bytes before a tag, is left out.
- Instrumentation.InstrumentationCapture.ProcessBuff: the two debugger breakpoints are taken to do nothing.
- Sockets, serial ports, USB, GDB, the simulator, babeltrace, asyncio and the frontend protocol: each stretch without an await is one step.
- Logging, progress bars, wall-clock time and file names beyond their being different.
- Names of events: only what the code distinguishes (kind, model number, equality of names) is kept. Numbers are unbounded except in `DenseKernel`; timestamps are real numbers.
- The scalar variant of the subtraction kernel, and the kernels of the second sine model, which repeat those modelled; the floating-point kernels.
- Samples, benchmark drivers, command lines, symbol and model file extraction, build configuration and USB descriptors.
