# A model of gRPC over Homa

gRPC over Homa runs each gRPC RPC as a stream of Homa messages. This project models the parts of it in
which state, arithmetic and interleavings make the code hard to judge by reading, and proves what they
keep over all inputs, all runs and all schedules. `dafny verify dfyconfig.toml` checks everything.

## What is modelled

**Streams** (homa_stream.cc). A sender cuts initial metadata, a sliced message and trailers into numbered
Homa messages; a receiver puts them back together from messages that arrive late, twice or not at all.
`HomaStream.dfy` is the class with its fields and loops. Each of its methods is proved to turn its view
into what the function of the same name in `StreamModel.dfy` says, and everything else is proved about
those functions:

* `Fragmentation.dfy` says in one place which messages an op must produce, and proves that the loop of
  `xmit`, which decides slice by slice, emits exactly these; `Sender.dfy` lifts this to whole ops.
* `Receiver.dfy` is about the reorder queue, `Delivery.dfy` about what reaches gRPC: delivered content, the
  rest of the front message and the messages beyond it always make up what was sent.
* `StreamRuns.dfy` covers whole runs of one stream: sends, receives, arrivals, cancellations and errors in
  any order.
* `EndToEnd.dfy` connects two streams by a network that reorders, duplicates and loses messages.
* `Wire.dfy` is the format of wire.h, `JavaWire.dfy` the second codec for it, HomaWire.java.

**Receive buffers** (homa_incoming.h, homa_incoming.cc, homa_socket.cc). `Pages.dfy` is the message object
whose bytes are scattered over pages; every accessor is proved against one flat sequence of bytes.
`Sockets.dfy` follows the pages and the references to messages through `read`, message destruction and the
saved queue, as functions and over whole runs, together with the contents of memory; `HomaSocket.dfy` is the code, working on its objects
in place, with a small class for what Homa does. `Messages.dfy` shows that what streams send is what `read`
accepts.

**Listener** (homa_listener.cc). `Listener.dfy` is the two-level locking protocol around the stream table, as
a state machine over the steps of any number of threads, with what each call is for and when it may end.

**Time traces** (time_trace.cc). `TraceMerge.dfy` defines the printout from everything ever recorded and
proves that it is ordered, has no gaps and holds exactly the events that it should; `TimeTrace.dfy` is the rings and the merging loops.

**Memory log** (stress.cc). `MemoryLog.dfy` is the circular log.

Page size, pages per message, maximum message length, ring size and log size are symbolic.

## What the proofs show about the code

* `xmit` does not return for every op that it accepts. With P = maxMessageLength - 21, N bytes of initial
  metadata and data and T > 0 bytes of trailers, its loop runs for ever exactly when T = P or
  N mod P + T = P (`Sender.SpinsExactly`, `Sender.ExactFitSpins`): the test for writing trailers and the test
  for flushing are both strict, so an exact fit satisfies neither.
* Initial metadata that `xmit` rejects because it is too long stays in the message under construction and goes
  out with the next op, in a message beyond the limit that also takes all data of that op
  (`Fragmentation.LongResult`, `EndToEnd.SentWithinLimit`). Trailers that fill a message exactly are then the
  only ones without an end.
* On a cancelled stream `flush` does nothing. `xmit` then never returns from an op with trailers unless
  everything fits in the message under construction with room to spare, nor from an op with data alone that
  does not fit, except when that message is too long already: then all data goes into it
  (`Sender.CancelledSpinsExactly`).
* A last metadata item with empty key and empty value is dropped by the C++ parser and kept by the Java one
  (`Wire.MetadataPreservedExactly`, `JavaWire.CodecsAgreeExactly`).
* The length check of `read` works modulo 2^32, so that a header whose lengths add up to more can pass it
  although its parts are not in the message (`Messages.AcceptedPartsFit`, `Messages.OverflowIsAccepted`). The
  metadata parser adds the lengths of a key and a value in 32 bits too (`Pages.ParseWrappedExactly`,
  `Pages.OverflowExists`). Streams send neither such headers nor such metadata.
* `onRead` uses the result of `getStream` without a test for null. A reader works on a null stream exactly if
  gRPC provides no stream for an id that is not in the table (`Listener.NullExactly`, `Listener.NullIsUsed`).
* A trace buffer that has never been used makes the printout start at time 0 instead of at the oldest event
  (`TraceMerge.UnusedBufferStartsAtZero`); the comment at time_trace.cc:191-198 says otherwise.

## Model

| member | source | states |
|---|---|---|
| `Wire.NetworkOrder` | wire.h:29-107 | numbers are written in network order: their bytes compare, the first counting most, as the numbers do |
| `Wire.HeaderLayout` | wire.h:29-107 | each field of a header is at its offset, the flags in the last byte |
| `Wire.HeaderRoundTrip` | wire.h:29-107 | a header of any field values, encoded in network order and followed by anything, is decoded to itself |
| `Wire.PairLayout` | wire.h:110-119 | the two lengths, the key, the value and whatever follows are found at their places behind a metadata item |
| `Wire.MetadataRoundTrip` | homa_incoming.cc:307-350 | metadata that was serialized is parsed back complete, except that a last item that is empty in key and value is not seen |
| `Wire.MetadataPreservedExactly` | homa_incoming.cc:314 | metadata arrives unchanged if and only if its last item is not empty in both key and value |
| `Wire.ParseSound` | homa_incoming.cc:307-350 | whatever the bytes are, the parser returns the items that are encoded at their beginning, and stops where there is no complete item |
| `StreamModel.StepProgress` | homa_stream.cc:313-348 | an iteration of the loop of `xmit` that changes anything lowers trailers, data, slices or pending message, in this order |
| `StreamModel.TakeSliceKeeps` | homa_stream.cc:328-333 | when data is left and no slice is open there is a slice to take (the assertion on `Count` holds), and taking it changes no byte |
| `StreamModel.OfferInSteps` | homa_stream.cc:427-510 | offering initial metadata, data and trailers one after the other, each with its own effect on the message, amounts to one combined step |
| `Fragmentation.PacketsSound` | homa_stream.cc:301-356 | the reference fragmentation loses nothing, keeps initial metadata first and trailers last, stays within the limit and leaves only the last packets partly filled |
| `Fragmentation.CountPackets` | homa_stream.cc:313-362 | how many messages an op costs, in closed form, for every combination of lengths |
| `Fragmentation.FlushEmitted` | homa_stream.cc:314-318 | a flush inside the loop takes exactly the first packet off the list of packets to come |
| `Fragmentation.WriteTrailersEmitted` | homa_stream.cc:319-326 | trailers are written only into a message without data, and no other message follows |
| `Fragmentation.TakeDataEmitted` | homa_stream.cc:327-347 | moving data into the message changes nothing about what will have been sent in the end |
| `Fragmentation.StepFixpoint` | homa_stream.cc:313-348 | an iteration that changes nothing is one whose trailers fill the remaining room exactly |
| `Fragmentation.LoopResult` | homa_stream.cc:313-348 | from any reachable loop state, for every slicing, the loop ends unless the trailers are stuck, and then has emitted exactly the reference packets |
| `Fragmentation.LongResult` | homa_stream.cc:334-348 | if the message under construction is too long when the loop begins, all data goes into it and trailers into a message of their own; the loop ends unless these fill a message exactly |
| `Fragmentation.SpinsMeansForever` | homa_stream.cc:313 | the value that stands for a loop without end stands for a guard that is true in every iteration |
| `Sender.SpinsExactly` | homa_stream.cc:313-348 | an op that is not rejected never returns if and only if its trailers fill a message exactly, or fill exactly what the last of the other bytes leaves of it (the latter only if waiting initial metadata is within the limit) |
| `Sender.ExactFitSpins` | homa_stream.cc:313-326 | such an op: 19 bytes of trailers with messages of 40 bytes |
| `Sender.RejectedExactly` | homa_stream.cc:279-299 | an op is rejected if and only if its initial or its trailing metadata exceeds one message; its initial metadata stays in the message under construction |
| `Sender.LoopEmits` | homa_stream.cc:313-348 | for every op and slicing: the loop ends exactly when there is a way on, and has then sent all packets but the last, which is under construction |
| `Sender.XmitSends` | homa_stream.cc:268-370 | an op that completes sends exactly its packets |
| `Sender.XmitCount` | homa_stream.cc:268-370 | how many messages an op that completes sends, in closed form, with or without initial metadata beyond the limit |
| `Sender.OpMessagesShape` | homa_stream.cc:268-370 | unless rejected initial metadata is waiting, the messages of an op are within the limit and full except at the end; their data adds up to the slices, only the last one says complete, and it holds all trailers |
| `Sender.XmitLeaves` | homa_stream.cc:360-362 | after an op with a message or trailers nothing is left pending, and the next message has the next number |
| `Sender.XmitInitialOnly` | homa_stream.cc:358-362 | an op with nothing but initial metadata sends nothing; the metadata waits for the next op |
| `Sender.CancelledLoop` | homa_stream.cc:74-77 | on a cancelled stream the loop of `xmit` sends nothing, and when it ends, for every state of the message under construction |
| `Sender.CancelledSpinsExactly` | homa_stream.cc:268-348 | on a cancelled stream an op sends nothing; which ops are rejected and which never return, in terms of lengths known before the call |
| `HomaStreams.HomaStream.constructor` | homa_stream.cc:23-56 | a new stream has message 1 under construction and expects message 1 |
| `HomaStreams.HomaStream.ResetXmit` | homa_stream.cc:145-153 | starts an empty message with the next number |
| `HomaStreams.HomaStream.Transmit` | homa_stream.cc:78-125 | sends the message as a reply if a request waits for one, as a request otherwise, and clears the request slot |
| `HomaStreams.HomaStream.Flush` | homa_stream.cc:69-139 | sends what is pending, unless nothing is or the stream is cancelled; a failed send is recorded; slices are released only when the gRPC message is complete |
| `HomaStreams.HomaStream.SaveCallbacks` | homa_stream.cc:162-184 | registers the callbacks of an op, which fail at once on a stream with an error |
| `HomaStreams.HomaStream.MetadataLength` | homa_stream.cc:192-199 | the computed length is that of the encoded metadata |
| `HomaStreams.HomaStream.SerializeMetadata` | homa_stream.cc:213-246 | appends the encoded item; sizes kept beside the iovecs stay right and writes stay inside their chunk, whether or not a new chunk is needed |
| `HomaStreams.HomaStream.SerializeMetadataBatch` | homa_stream.cc:253-259 | appends the encoding of the whole batch, across as many chunks as it takes |
| `HomaStreams.HomaStream.XmitStep` | homa_stream.cc:314-347 | the body of the loop does to the stream, the current slice and the remaining slices what the step function says |
| `HomaStreams.HomaStream.XmitLoop` | homa_stream.cc:313-348 | the loop reaches the state of the loop function, and spins exactly when that function says so |
| `HomaStreams.HomaStream.XmitInitMd` | homa_stream.cc:270-278 | adds initial metadata, after sending metadata that was still waiting |
| `HomaStreams.HomaStream.Xmit` | homa_stream.cc:268-370 | the whole of `xmit`, with both rejections and the endless case, as a function of the old state |
| `HomaStreams.HomaStream.FinishOp` | homa_stream.cc:350-369 | final flags, final flush, and the hand-over of trailers that a server had to withhold |
| `HomaStreams.HomaStream.TransferInitMd` | homa_stream.cc:427-445 | hands initial metadata over if it is there and wanted, once |
| `HomaStreams.HomaStream.TransferBody` | homa_stream.cc:447-487 | collects data for the waiting callback and completes it with the last piece |
| `HomaStreams.HomaStream.TransferTrailMd` | homa_stream.cc:489-510 | notes the end of the stream, and hands trailers over unless a server must withhold them |
| `HomaStreams.HomaStream.TransferFront` | homa_stream.cc:427-522 | one iteration: the message is retired if nothing is left in it, held otherwise |
| `HomaStreams.HomaStream.TransferData` | homa_stream.cc:409-534 | the whole loop and the end-of-stream signal, as a function of the old state |
| `HomaStreams.HomaStream.FindPlace` | homa_stream.cc:580-597 | the backward search finds where a message belongs, or that it is a duplicate |
| `HomaStreams.HomaStream.InsertIncoming` | homa_stream.cc:580-597 | inserts a message at its place, or drops it |
| `HomaStreams.HomaStream.HandleIncoming` | homa_stream.cc:562-606 | the whole of `handleIncoming`: request slot, cancellation, duplicates, queue, transfer |
| `HomaStreams.HomaStream.CancelPeer` | homa_stream.cc:642-651 | sends one cancel message and silences the stream |
| `Receiver.PlaceSound` | homa_stream.cc:583-597 | all messages before the place have smaller numbers, all behind it do not |
| `Receiver.InsertDropsDuplicates` | homa_stream.cc:584-586 | a message is dropped by the search if and only if its number is waiting |
| `Receiver.InsertAtPlace` | homa_stream.cc:587-597 | what is inserted goes to the place, and nothing else moves |
| `Receiver.InsertKeepsOrder` | homa_stream.cc:580-597 | the queue stays strictly increasing and above everything retired |
| `Receiver.RetiredInOrder` | homa_stream.cc:418-523 | messages are retired from the front, consecutively, and the expected number advances by one for each |
| `Receiver.MaximalProgress` | homa_stream.cc:418-533 | after a transfer the queue is empty, starts with a gap, or its front waits for an absent callback or for unsent trailers, and no callback that is there waits for anything in it or, past the end of the stream, for a message |
| `Receiver.HolderAnswers` | homa_stream.cc:447-533 | when a transfer has completed the callback for a message, the message holder has the data handed over, or is empty if there was no message |
| `Receiver.NeverGoesBack` | homa_stream.cc:519-523 | the number expected next never goes back, whatever is in the queue |
| `Receiver.TransferDataSettles` | homa_stream.cc:409-534 | a second transfer with no news completes nothing and retires nothing |
| `StreamRuns.RequestsAccountedFor` | homa_stream.cc:564-571 | at every point of every run each Homa request has been received as often as it is answered or waiting |
| `StreamRuns.OneReplyPerRequest` | homa_stream.cc:58-63 | over a whole life, up to the destructor, each request is answered as often as it was received, and no other is |
| `StreamRuns.RunCoherent` | homa_stream.cc:69-153 | in every run all messages sent are numbered 1, 2, 3, ..., their headers add up to their lengths and say whether they are requests |
| `StreamRuns.SilentAfterCancel` | homa_stream.cc:74-77 | a cancelled stream stays cancelled and sends nothing but dummy responses |
| `StreamRuns.OneCancelMessage` | homa_stream.cc:642-651 | at most one cancel message goes out, and none before the stream is cancelled |
| `StreamRuns.CallbacksAccountedFor` | homa_stream.cc:409-534 | every callback registered has been completed once, waits, or was replaced; none is completed twice or forgotten |
| `StreamRuns.XmitRx` | homa_stream.cc:364-369 | an op changes the receive side exactly if it was to send trailers and has completed: that is noted, and a server transfers what it had withheld |
| `StreamRuns.TrailersSentExactly` | homa_stream.cc:364-366 | at every point of every run `trailMdSent` holds exactly if an op that was to send trailers has completed |
| `StreamRuns.TrailersWaitForReason` | homa_stream.cc:489-509 | in every run, trailers at the front wait beside a callback for them only on a server that has completed no op with trailers |
| `StreamRuns.InitMdFirst` | homa_stream.cc:427-445 | initial metadata at the front goes to the callback that waits for it before anything else, and tells it, if asked, whether trailers have come with it |
| `StreamRuns.SendFailuresAreNoticed` | homa_stream.cc:127-133 | after an op the error of the stream says that it was rejected, or that one of its `sendmsg` calls failed, or is as before; exactly the calls made use up outcomes |
| `StreamRuns.RunCalled` | homa_stream.cc:377-403 | over every run each message and each dummy response takes one call, and a dummy is a bare header with the stream id, number 0 and the flag of dummies alone |
| `StreamRuns.ErrorEventsKill` | homa_stream.cc:615-637 | an error or a cancellation from either side, and the next receive op after a failure to send, cancels the stream, records this error, and fails all waiting callbacks with it |
| `StreamRuns.ErrorsAreSticky` | homa_stream.cc:181-183 | after an error is announced no callback succeeds, whatever happens, and new callbacks fail at once |
| `StreamRuns.TrailersAreWithheld` | homa_stream.cc:489-509 | in every run a server hands trailers to gRPC only after its own have been sent, and trailers are announced only if they have been seen |
| `StreamRuns.NewStreamSends` | homa_stream.cc:23-56 | all that a new stream ever sends carries its id: messages numbered from 1 with coherent headers, dummies with number 0 |
| `StreamRuns.NewStreamErrors` | homa_stream.cc:23-56 | a new stream has an error exactly if, since its creation, an op was rejected, a `sendmsg` call for a message failed, or an error or a cancellation occurred |
| `StreamRuns.NewStreamTrailers` | homa_stream.cc:489-509 | from its creation on, a server hands over no trailers before an op with its own has completed, and a client never withholds trailers |
| `StreamRuns.PeerIsToldOnce` | homa_stream.cc:642-651 | `cancelPeer` sends one message that carries the flag and what was pending, and a second call does nothing |
| `StreamRuns.QueueOverRuns` | homa_stream.h:73-79 | in every run the queue is sorted and above what has been retired |
| `StreamRuns.SettledOverRuns` | homa_stream.cc:409-534 | in every reachable state the front message waits only for a reason, and not for a callback that is there |
| `Delivery.OfferMoves` | homa_stream.cc:427-510 | offering a message moves content from the message to what is delivered and changes neither order nor amount |
| `Delivery.LoopInStep` | homa_stream.cc:418-523 | conservation through the loop: delivered, then the rest of the front message, then the messages beyond it, is always what was sent |
| `Delivery.LoopDrains` | homa_stream.cc:525 | when the end has been seen and a message is wanted, the loop has delivered all data |
| `Delivery.TransferInStep` | homa_stream.cc:409-534 | a transfer conserves the content and announces the end only when all data is delivered |
| `Delivery.EnqueueInStep` | homa_stream.cc:573-600 | an arriving message, new or duplicate, early or late, conserves the content |
| `Delivery.RegisterInStep` | homa_stream.cc:162-179 | registering callbacks conserves the content, if gRPC asks for one message at a time |
| `Delivery.GrowInStep` | homa_stream.cc:409-534 | messages that the peer sends later extend what remains and disturb nothing |
| `EndToEnd.OpMessagesContent` | homa_stream.cc:268-370 | the messages of an op contain its waiting metadata, its message with its end, and its trailers, which only the last one carries |
| `EndToEnd.SendKeepsSender` | homa_stream.cc:268-370 | after each op the messages sent contain all that gRPC has handed over; initial metadata may still wait |
| `EndToEnd.RejectedKeepsSender` | homa_stream.cc:279-299 | after a rejected op the stream goes on, with the initial metadata of the op waiting and nothing else of it taken |
| `EndToEnd.CancelKeepsSender` | homa_stream.cc:642-651 | the cancel message carries no data and no trailers, but any initial metadata that was waiting |
| `EndToEnd.EventOk` | homa_stream.cc:409-606 | every event keeps a receiver in step with its peer, or stopped by an error with a prefix delivered |
| `EndToEnd.EventSeen` | homa_stream.cc:573-600 | a message that has arrived is not lost: it is retired or waits, until an error stops the stream |
| `EndToEnd.DeliveredIsPrefix` | homa_stream.cc:268-606 | in every run over a network that reorders, duplicates and loses, with rejected ops and errors on either side: metadata, message bodies and trailers delivered are prefixes of those that `xmit` has taken |
| `EndToEnd.EndOfStreamIsSafe` | homa_stream.cc:525-533 | "no message" is reported only after every message body has been delivered and the sender has sent trailers |
| `EndToEnd.EverythingIsDelivered` | homa_stream.cc:409-600 | when all n messages have arrived and the front one is not blocked, message n + 1 is expected and everything has been delivered |
| `EndToEnd.SentWithinLimit` | homa_stream.cc:268-370 | every message of a run has its number and a header that gives its length; all are within the maximum length if and only if no initial metadata beyond it has gone out |
| `Messages.CoherentIsAccepted` | homa_incoming.cc:200-223 | the bytes of a coherent message pass the checks of `read` and give the receiving stream its number, flags and parts |
| `Messages.SentIsReadFor` | homa_incoming.cc:205-207 | a message sent by stream n, met after any number of dummy responses, is returned by `read` as one for stream n, with all its bytes |
| `Messages.DeliveredIsRead` | homa_incoming.cc:164-235 | if the network brings such a message and Homa has the pages for it, `read` returns it |
| `Messages.SentMessagesAreAccepted` | homa_incoming.cc:200-223 | every message sent in a run of two connected streams passes the length check |
| `Messages.AcceptedPartsFit` | homa_incoming.cc:210-212 | the parts of an accepted message are inside it exactly if the sum of its lengths does not overflow 32 bits |
| `Messages.OverflowIsAccepted` | homa_incoming.cc:210-212 | such an overflow is accepted: a header alone that announces 2^32 bytes more |
| `Messages.DummiesAreDiscarded` | homa_incoming.cc:194-202 | a dummy response never reaches a stream |
| `Messages.FlagsInPlace` | homa_stream.cc:442 | overwriting the flag byte of a message changes its flags and nothing else |
| `Messages.FlagsInMemory` | homa_stream.cc:442 | after the flag byte in memory has been overwritten, the message in its pages is the old one with the new flags |
| `Pages.HomaIncoming.Contiguous` | homa_incoming.h:68-77 | the count is zero exactly beyond the message, and reaches to the end of the page or of the message |
| `Pages.HomaIncoming.ContiguousRange` | homa_incoming.h:68-77 | the bytes counted lie next to each other in the region and are those of the flat message |
| `Pages.HomaIncoming.Get` | homa_incoming.h:97-129 | the object returned is the range of the flat message; null exactly if it goes beyond it, or is split and no space is given |
| `Pages.HomaIncoming.CopyPages` | homa_incoming.h:117-127 | an object that spans any number of pages is put together from them |
| `Pages.HomaIncoming.CopyOut` | homa_incoming.cc:247-264 | the copy is the range of the flat message, cut at its end; memory behind it is untouched |
| `Pages.HomaIncoming.GetSlice` | homa_incoming.cc:278-296 | the slice has the bytes of the range; it shares the message, and counts a reference, exactly if the range is in one page |
| `Pages.HomaIncoming.SliceBody` | homa_stream.cc:449-466 | the slices of a body concatenate to it, and each holds a reference to the message |
| `Pages.HomaIncoming.DeserializeMetadata` | homa_incoming.cc:307-350 | metadata cut by pages anywhere is parsed as the flat metadata is, with the sum of key and value length in 32 bits; each value in one page counts a reference |
| `Pages.ParseWrappedExactly` | homa_incoming.cc:319-328 | the 32-bit sums make no difference exactly if no item is reached whose lengths do not fit and seem to after wrapping around |
| `Pages.EncodedNeverOverflows` | homa_stream.cc:213-259 | metadata that was serialized holds no such item |
| `Pages.OverflowExists` | homa_incoming.cc:323 | such metadata, in nine bytes |
| `Sockets.WrittenFlat` | homa_incoming.h:97-129 | a message put into distinct pages is read back from them |
| `Sockets.ReadKeepsPages` | homa_incoming.cc:144-235 | wherever `read` ends, and after any number of dummy responses, each page is with Homa, saved, or in the message returned |
| `Sockets.ReadElsewhere` | homa_incoming.cc:144-235 | `read` leaves the bytes of every message that exists as they are |
| `Sockets.ReadAnswers` | homa_incoming.cc:164-235 | all that `read` meets before its last `recvmsg` are dummy responses; the caller is told about the last one: nothing there, an error, a bad message, or the message with its bytes, its pages, its Homa id and the stream id in its header |
| `Sockets.DeliveriesInOrder` | homa_incoming.cc:164-202 | what `read` meets is what the network brings, in order |
| `Sockets.SavedGoBack` | homa_socket.cc:183-193 | the oldest saved buffers go back to Homa, at least as many as fit into one call; only a message that is not returned adds to the others |
| `Sockets.ReadDelivers` | homa_incoming.cc:144-235 | the message that `read` returns is in its pages |
| `Sockets.EventKeepsPages` | homa_incoming.cc:107-125 | destroying a message, or taking and dropping references, neither loses nor duplicates a page |
| `Sockets.NewStateIntact` | homa_socket.cc:61-82 | when Homa has all pages, each of them once, every page is in one place |
| `Sockets.PagesAreConserved` | homa_socket.cc:166-193 | over every run each page is in as many places as at the start |
| `Sockets.LivePagesAreNotReturned` | homa_incoming.cc:107-125 | no page of a message is saved or with Homa while a reference to the message exists |
| `Sockets.MessagesKeepTheirBytes` | homa_incoming.cc:278-296 | in every run a message keeps its bytes as long as anything refers to it, whatever arrives meanwhile |
| `Sockets.ReferencesBalance` | homa_incoming.cc:107-125 | over every run the reference count of a message is one for reading it, plus references taken, less references dropped |
| `Sockets.ExistsWhileReferenced` | homa_incoming.cc:107-125 | a message exists exactly while that number is positive; until then its pages hold its bytes and are neither saved nor with Homa |
| `Sockets.LastReference` | homa_incoming.cc:107-125 | dropping a reference saves the pages of the message if it was the last one, and nothing otherwise |
| `Sockets.MessagesStayTheSame` | homa_incoming.cc:278-296 | a message that exists at two points of a run has the same pages and, but for its flags, the same bytes at both |
| `HomaSockets.HomaSocket.SaveBuffers` | homa_socket.cc:166-173 | all buffers of the message are saved, in order, and the arguments are emptied |
| `HomaSockets.HomaSocket.GetSavedBuffers` | homa_socket.cc:183-193 | as many of the oldest saved buffers as fit move to the arguments |
| `HomaSockets.Judge` | homa_incoming.cc:187-223 | short messages and wrong lengths are rejected, dummy responses discarded, others accepted, judged by the bytes in memory |
| `HomaSockets.ReadRound` | homa_incoming.cc:164-202 | one iteration of `read`, from returning buffers to the verdict |
| `HomaSockets.ReadMessage` | homa_incoming.cc:144-235 | `read` ends in the state, and with the result and message, of the read function; the result is the answer to the last delivery met |
| `Listener.StepOk` | homa_listener.cc:333-367 | every step of every thread keeps consistent: lock owners, table, users of streams, the stream a reader has and the id it asked for, streams to be destroyed and their destroyers |
| `Listener.ReaderHasItsStream` | homa_listener.cc:339-365 | for any schedule, a thread that has found a stream has the one that the table holds for the id it asked for |
| `Listener.CallsAccountedFor` | homa_listener.cc:333-574 | over any schedule, for each thread and each call (of `getStream` with its arguments, an op or a destruction of a stream): started is completed plus under way |
| `Listener.LockedBeforeDestroyed` | homa_listener.cc:564-570 | over any schedule, each time a thread destroys a stream it has held and released its lock before, once |
| `Listener.CompletedWell` | homa_listener.cc:333-367 | a `getStream` call ends without a stream exactly if the id is not in the table and none is to be created or gRPC provides none; else the thread has had the stream of that id locked. Ops end under the lock, and a destruction with the stream destroyed |
| `Listener.AllDestroyed` | homa_listener.cc:558-574 | when no thread is busy, exactly the streams that gRPC wanted destroyed have been destroyed and have left the table |
| `Listener.NoUseAfterDestroy` | homa_listener.cc:558-574 | for any number of threads and any schedule: no stream in the table is destroyed, no thread works on a destroyed stream, and no two streams that have not left the table share an id |
| `Listener.BecomesAlone` | homa_listener.cc:564-568 | a destroyer that gets the lock of the stream finds nobody using it |
| `Listener.DestroyedOnceAlone` | homa_listener.cc:569-570 | the thread that destroys a stream is the only one to use or destroy it, and does so once |
| `Listener.StreamLockIsLast` | homa_listener.h:109-111 | a thread that has a stream locked never waits for another lock |
| `Listener.NoDeadlock` | homa_listener.cc:337-365 | if any thread is busy, some busy thread can take a step |
| `Listener.CallsComplete` | homa_listener.cc:333-574 | every call ends after a bounded number of steps, however the busy threads are scheduled |
| `Listener.NullExactly` | homa_listener.cc:344-359 | over any schedule, a reader works on a null stream if and only if at some step a stream was to be created for an id not in the table and gRPC provided none |
| `Listener.NullIsUsed` | homa_listener.cc:406-407 | such a run: one message is enough |
| `TraceMerge.NothingLaterIsLost` | time_trace.cc:173-215 | what a ring has lost or skips is not later than the start time, what it prints is not earlier |
| `TraceMerge.MergeKeepsEach` | time_trace.cc:222-290 | of each buffer exactly the events handed to the merge are printed, once and in order |
| `TraceMerge.MergeInOrder` | time_trace.cc:226-243 | the printout is in the order of time |
| `TraceMerge.GapFree` | time_trace.cc:148-292 | the printout is ordered, and holds of each buffer all events from some point on, before which none is later than the start time |
| `TraceMerge.PrintedExactly` | time_trace.cc:148-292 | of each buffer the last events are printed; an event still in a ring is printed if and only if no full ring begins after it |
| `TraceMerge.AllIsPrinted` | time_trace.cc:191-204 | if no ring is full, every event is printed |
| `TraceMerge.SomeRingIsPrinted` | time_trace.cc:191-204 | if some ring is full, all that one such ring holds is printed |
| `TraceMerge.UnusedBufferStartsAtZero` | time_trace.cc:174-204 | without wrapped rings the start time is 0 instead of the oldest time exactly if some buffer is unused |
| `TimeTraces.Buffer.Record` | time_trace.cc:392-406 | each slot holds the last event recorded in it; nothing is recorded while frozen |
| `TimeTraces.Buffer.OldestSlot` | time_trace.cc:177-184 | the slot after the next one is the oldest of the last BUFFER_SIZE - 1 events, or unused and nothing is lost |
| `TimeTraces.Buffer.SkipEarly` | time_trace.cc:209-214 | skipping stops at the first event that is not too early, or at the end |
| `TimeTraces.FindStart` | time_trace.cc:164-204 | first positions and start time, as functions of everything recorded |
| `TimeTraces.FindEarliest` | time_trace.cc:227-238 | the buffer with the earliest next event |
| `TimeTraces.MergeBuffers` | time_trace.cc:217-290 | the k-way merge prints the merge of what remains in the rings |
| `TimeTraces.TimeTrace.PrintInternal` | time_trace.cc:148-292 | the printout is the specified one for everything ever recorded, and recording resumes |
| `MemoryLogs.LastOfLast` | stress.cc:68-83 | keeping the last bytes of what was kept and what is added is keeping the last bytes of everything |
| `MemoryLogs.ChunkAppended` | stress.cc:69-82 | a chunk written at the offset pushes out exactly the oldest bytes, wrapping or not |
| `MemoryLogs.MemoryLog.AppendToLog` | stress.cc:59-84 | appends any number of bytes, more than the ring holds included; nothing after the log is printed |
| `MemoryLogs.MemoryLog.PrintLog` | stress.cc:129-146 | what is written is the last min(total, size) bytes appended, in order |
| `JavaWire.SameHeaderBytes` | java/grpcHoma/src/main/java/grpcHoma/HomaWire.java:123-135 | Java writes the header bytes of C++ if and only if the two unused flag bits are clear |
| `JavaWire.JavaHeaderIsRead` | java/grpcHoma/src/main/java/grpcHoma/HomaWire.java:123-135 | what Java writes is read by C++ as the fields meant |
| `JavaWire.JavaHeaderObject.Serialize` | java/grpcHoma/src/main/java/grpcHoma/HomaWire.java:123-135 | writes the 21 bytes at the position, or throws exactly if there is no room |
| `JavaWire.JavaHeaderObject.Deserialize` | java/grpcHoma/src/main/java/grpcHoma/HomaWire.java:144-152 | reads the header that C++ reads and stops behind it, or throws exactly if the buffer is too short |
| `JavaWire.SameMetadataBytes` | java/grpcHoma/src/main/java/grpcHoma/HomaWire.java:168-180 | Java and C++ write the same bytes for the same metadata |
| `JavaWire.SerializeMetadata` | java/grpcHoma/src/main/java/grpcHoma/HomaWire.java:168-180 | writes the encoding and returns its length, or throws exactly if there is no room |
| `JavaWire.DeserializeMetadata` | java/grpcHoma/src/main/java/grpcHoma/HomaWire.java:195-226 | reads what the parse function says, with the exceptions and the 32-bit arithmetic of Java |
| `JavaWire.JavaRoundTrip` | java/grpcHoma/src/main/java/grpcHoma/HomaWire.java:195-226 | metadata comes out of the Java parser complete, whatever follows it in the message |
| `JavaWire.JavaParseSound` | java/grpcHoma/src/main/java/grpcHoma/HomaWire.java:195-226 | whatever the bytes are, Java returns the items encoded at their beginning; it stops when it has read enough or the next item is longer than what is left, and throws exactly if that item is incomplete or has a negative length |
| `JavaWire.CodecsAgreeExactly` | java/grpcHoma/src/main/java/grpcHoma/HomaWire.java:195-226 | the two parsers give the same result exactly if the last item is not empty in both key and value |

## Left out

- The Homa kernel module, `sendmsg`, `recvmsg` and `mmap`: sending appends to a log, with failures given by a list; receiving is a scripted step that takes pages and returns pages.
- The order in which dummy responses and messages leave a stream: they are in two logs.
- gRPC itself: metadata batches are lists of pairs, `ExecCtx::Run` appends to a log of completed callbacks. gRPC is taken to ask for one message at a time with an empty message holder, to send initial metadata once and nothing after trailers, and to count its references to streams.
- The Homa id and the completion cookie of a request that is sent, and log output.
- The Homa ids of requests are taken to be nonzero, as the one-slot design does.
- 32-bit wrap-around of message lengths and sequence numbers in the C++ code; it is modelled where `read` and the metadata parser add lengths up and throughout the Java codec.
- Pages.HomaIncoming.DeserializeMetadata: stops with no result at an item whose lengths overflow; what the source then reads beyond the item is not modelled. The streams use the parser without overflow, which gives the same on all metadata that is sent.
- Inlined slices and the freeing of overflow chunks and slices: slices are values plus a reference count on their message.
- HomaStreams.HomaStream.TransferBody: takes the body from the flat message; that the slicing loop gives these bytes is Pages.HomaIncoming.SliceBody. The empty slice added to an empty message does not change its bytes.
- HomaStreams.HomaStream.TransferTrailMd: parses the flat metadata, as does TransferInitMd; that the parser gives the same on a message in pages is Pages.HomaIncoming.DeserializeMetadata.
- HomaStreams.HomaStream.TransferInitMd: does not add the peer address, as a server does; it clears the flag in the record of the message; that the byte in shared memory can be overwritten without touching anything else is in Sockets and Messages.
- EndToEnd.DeliveredIsPrefix: a run ends with an op from which `xmit` does not return. Of an op that is rejected, only the initial metadata counts as handed over, since the rest is dropped.
- Listener: the threads are values in a state machine, and a critical section is one step where no other thread can observe its parts. gRPC is taken to ask for the destruction of a stream once, when no op is in progress on it.
- HomaClient, whose `destroy_stream` does not take the lock of the stream, and the connection set-up on both sides.
- TimeTraces.TimeTrace.PrintInternal: gives the events in order with their buffers; the text of each line, the times in microseconds and the synthetic first line are not modelled. Time stamps below 2^64 - 1 are needed, since that value marks the absence of an event.
- `printLog` when its file cannot be opened, `wire.cc`, `util.cc`, the Java streams and transports, and the test programs.
