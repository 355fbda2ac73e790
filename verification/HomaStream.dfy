/** The stream object of homa_stream.cc, with its fields and its in-place updates. Each method turns
    the view of the object into what the function of the same name in StreamModel says. */
module HomaStreams {
  import opened Basics
  import opened Wire
  import opened StreamModel
  import Model = StreamModel

  /** One piece of an outgoing message; capacity is the size of the memory it lies in. The first piece
      follows the header in the transmit buffer. */
  datatype IoVec = IoVec(capacity: nat, bytes: Bytes)

  function VecBytes(vecs: seq<IoVec>): Bytes {
    if vecs == [] then [] else VecBytes(vecs[..|vecs| - 1]) + vecs[|vecs| - 1].bytes
  }

  lemma VecBytesAppend(vecs: seq<IoVec>, v: IoVec)
    ensures VecBytes(vecs + [v]) == VecBytes(vecs) + v.bytes
  {
    assert (vecs + [v])[..|vecs|] == vecs;
  }

  /** The sizes kept beside the pieces agree with them, and metadata stays inside its memory. */
  ghost predicate PiecesOk(vecs: seq<IoVec>, payload: Bytes, xmitSize: nat, lastVecAvail: nat) {
    && |vecs| > 0
    && payload == VecBytes(vecs)
    && xmitSize == HEADER_LENGTH + |payload|
    && |vecs[|vecs| - 1].bytes| + lastVecAvail == vecs[|vecs| - 1].capacity
  }

  class HomaStream {
    const streamId: nat
    const isServer: bool
    const maxMessageLength: nat
    const xmitBufferSize: nat
    const overflowChunkSize: nat

    // The message under construction.
    var hdr: Header
    var vecs: seq<IoVec>
    ghost var payload: Bytes
    var lastVecAvail: nat
    var xmitSize: nat
    var nextXmitSequence: nat
    var slices: seq<Bytes>
    var homaRequestId: nat

    // Messages received and callbacks waiting for them.
    var incoming: seq<Incoming>
    var nextIncomingSequence: nat
    var initMdCb: Option<InitMdCallback>
    var messageBody: Option<Bytes>
    var messageCb: Option<nat>
    var trailMdCb: Option<nat>
    var eof: bool
    var trailMdSent: bool

    var cancelled: bool
    var error: Option<Error>

    // The environment: the network, the results of sendmsg calls to come, completed callbacks.
    var sent: seq<HomaMessage>
    var dummies: seq<HomaMessage>
    var sendErrors: seq<bool>
    var done: seq<Completion>

    ghost predicate Valid()
      reads this
    {
      PiecesOk(vecs, payload, xmitSize, lastVecAvail) && xmitBufferSize >= HEADER_LENGTH
    }

    ghost function TxView(): Tx
      reads this
    {
      Tx(streamId, maxMessageLength, hdr, payload, nextXmitSequence, homaRequestId, sent, dummies, sendErrors)
    }

    ghost function RxView(): Rx
      reads this
    {
      Rx(incoming, nextIncomingSequence, initMdCb, messageBody, messageCb, trailMdCb, eof, trailMdSent, isServer, done)
    }

    ghost function View(): Stream
      reads this
    {
      Stream(TxView(), RxView(), error, cancelled)
    }

    /** The fields behind the view. */
    ghost function Memory(): (seq<IoVec>, nat, nat, seq<Bytes>)
      reads this
    {
      (vecs, lastVecAvail, xmitSize, slices)
    }

    twostate predicate SameTx()
      reads this
    {
      TxView() == old(TxView()) && Memory() == old(Memory())
    }

    twostate predicate SameRx()
      reads this
    {
      RxView() == old(RxView())
    }

    twostate predicate SameStatus()
      reads this
    {
      error == old(error) && cancelled == old(cancelled)
    }

    constructor (isServer: bool, streamId: nat, maxMessageLength: nat, xmitBufferSize: nat,
                 overflowChunkSize: nat, sendErrors: seq<bool>)
      requires xmitBufferSize >= HEADER_LENGTH
      ensures Valid() && OpenMessage() && View() == NewStream(isServer, streamId, maxMessageLength, sendErrors)
    {
      this.isServer, this.streamId, this.maxMessageLength := isServer, streamId, maxMessageLength;
      this.xmitBufferSize, this.overflowChunkSize := xmitBufferSize, overflowChunkSize;
      homaRequestId, slices, nextXmitSequence := 0, [], 1;
      incoming, nextIncomingSequence := [], 1;
      initMdCb, messageBody, messageCb, trailMdCb := None, None, None, None;
      eof, trailMdSent, cancelled, error := false, false, false, None;
      sent, dummies, done := [], [], [];
      this.sendErrors := sendErrors;
      hdr, vecs, payload, lastVecAvail, xmitSize := NewHeader(streamId, 0), [], [], 0, HEADER_LENGTH;
      new;
      ResetXmit();
    }

    /** Starts a new message. */
    method ResetXmit()
      requires xmitBufferSize >= HEADER_LENGTH
      modifies this
      ensures Valid() && TxView() == Model.ResetXmit(old(TxView())) && slices == old(slices)
      ensures SameRx() && SameStatus()
    {
      hide PiecesOk;
      NextHeader();
      ResetVecs();
    }

    method NextHeader()
      modifies this`hdr, this`nextXmitSequence
      ensures hdr == NewHeader(streamId, old(nextXmitSequence)) && nextXmitSequence == old(nextXmitSequence) + 1
    {
      hdr := NewHeader(streamId, nextXmitSequence);
      nextXmitSequence := nextXmitSequence + 1;
    }

    method ResetVecs()
      requires xmitBufferSize >= HEADER_LENGTH
      modifies this`vecs, this`payload, this`xmitSize, this`lastVecAvail
      ensures Valid() && payload == []
    {
      vecs, payload := [IoVec(xmitBufferSize - HEADER_LENGTH, [])], [];
      xmitSize := HEADER_LENGTH;
      lastVecAvail := xmitBufferSize - xmitSize;
    }

    /** The result of the next sendmsg call. */
    method SendMsg() returns (failed: bool)
      modifies this`sendErrors
      ensures failed == NextSendFails(old(TxView())) && TxView() == AfterSend(old(TxView()))
    {
      failed := sendErrors != [] && sendErrors[0];
      sendErrors := if sendErrors == [] then [] else sendErrors[1..];
    }

    /** Sends the message under construction, as a reply if a request is waiting for one. */
    method Transmit() returns (failed: bool)
      requires Valid()
      modifies this
      ensures var m := Outgoing(old(TxView()));
              failed == NextSendFails(old(TxView())) &&
              TxView() == AfterSend(old(TxView())).(hdr := m.header, homaRequestId := 0, sent := old(sent) + [m])
      ensures Memory() == old(Memory()) && SameRx() && SameStatus()
    {
      if homaRequestId == 0 {
        hdr := hdr.(flags := hdr.flags.(request := true));
        sent := sent + [HomaMessage(Request, hdr, VecBytes(vecs))];
      } else {
        sent := sent + [HomaMessage(Reply(homaRequestId), hdr, VecBytes(vecs))];
        homaRequestId := 0;
      }
      failed := SendMsg();
    }

    /** If a message has accumulated, sends it and starts a new one. */
    method Flush()
      requires Valid()
      modifies this
      ensures Valid() && OpenMessage() && View() == Model.Flush(old(View()))
      ensures slices == if old(cancelled || !hdr.flags.messageComplete) then old(slices) else []
    {
      if (xmitSize <= HEADER_LENGTH && hdr.flags == NO_FLAGS) || cancelled {
        return;
      }
      var failed := Transmit();
      if failed {
        error := Some(SendFailed);
      }
      FreeSlices();
      ResetXmit();
    }

    /** The last slice may be needed for the next message until the gRPC message is complete. */
    method FreeSlices()
      modifies this`slices
      ensures slices == if hdr.flags.messageComplete then [] else old(slices)
    {
      if hdr.flags.messageComplete {
        slices := [];
      }
    }

    /** Records the callbacks of a receive op; on a failed stream they fail at once. */
    method SaveCallbacks(op: RecvOp)
      modifies this
      ensures View() == Model.SaveCallbacks(old(View()), op) && Memory() == old(Memory())
    {
      RegisterCallbacks(op);
      if error.Some? {
        NotifyError(error.value);
      }
    }

    method RegisterCallbacks(op: RecvOp)
      modifies this
      ensures RxView() == Register(old(RxView()), op) && SameTx() && SameStatus()
    {
      if op.initMd.Some? {
        initMdCb := op.initMd;
      }
      if op.message.Some? {
        messageBody, messageCb := None, op.message;
      }
      if op.trailMd.Some? {
        trailMdCb := op.trailMd;
      }
    }

    static method MetadataLength(md: Metadata) returns (length: nat)
      ensures length == |EncodeMetadata(md)|
    {
      length := 0;
      for i := 0 to |md|
        invariant length == |EncodeMetadata(md[..i])|
      {
        EncodeMetadataAppend(md[..i], md[i]);
        assert md[..i + 1] == md[..i] + [md[i]];
        length := length + |md[i].key| + |md[i].value| + MDATA_LENGTH;
      }
      assert md[..|md|] == md;
    }

    /** Adds one metadata item to the message, in a new chunk of memory if the current one is too small. */
    method SerializeMetadata(p: Mdata)
      requires Valid()
      modifies this`vecs, this`payload, this`lastVecAvail, this`xmitSize
      ensures Valid() && payload == old(payload) + EncodePair(p)
    {
      var vec := vecs[|vecs| - 1];
      var elemLength := |p.key| + |p.value| + MDATA_LENGTH;
      if elemLength > lastVecAvail {
        var newSize := if elemLength > overflowChunkSize then elemLength else overflowChunkSize;
        vec := IoVec(newSize, []);
        VecBytesAppend(vecs, vec);
        vecs := vecs + [vec];
        lastVecAvail := newSize;
      }
      var n := |vecs| - 1;
      vecs := vecs[..n] + [vec.(bytes := vec.bytes + EncodePair(p))];
      VecBytesAppend(vecs[..n], vecs[n]);
      assert vecs == vecs[..n] + [vecs[n]];
      payload := payload + EncodePair(p);
      lastVecAvail := lastVecAvail - elemLength;
      xmitSize := xmitSize + elemLength;
    }

    method SerializeMetadataBatch(md: Metadata)
      requires Valid()
      modifies this`vecs, this`payload, this`lastVecAvail, this`xmitSize
      ensures Valid() && payload == old(payload) + EncodeMetadata(md)
    {
      for i := 0 to |md|
        invariant Valid() && payload == old(payload) + EncodeMetadata(md[..i])
      {
        SerializeMetadata(md[i]);
        EncodeMetadataAppend(md[..i], md[i]);
        assert md[..i + 1] == md[..i] + [md[i]];
      }
      assert md[..|md|] == md;
    }

    /** Serializes metadata and returns its length. */
    method AddMetadata(md: Metadata) returns (n: nat)
      requires Valid()
      modifies this
      ensures Valid() && n == |EncodeMetadata(md)| && slices == old(slices)
      ensures TxView() == old(TxView()).(payload := old(payload) + EncodeMetadata(md))
      ensures SameRx() && SameStatus()
    {
      var oldLength := xmitSize;
      SerializeMetadataBatch(md);
      n := xmitSize - oldLength;
    }

    /** Unless the stream is cancelled, no message is left marked complete but unsent. */
    ghost predicate OpenMessage()
      reads this
    {
      cancelled || !hdr.flags.messageComplete
    }

    /** The part of the current slice that has not been put into a message. */
    ghost function Cut(bytesInSlice: nat, sliceOffset: nat): Bytes
      reads this
      requires InSlice(bytesInSlice, sliceOffset)
    {
      if bytesInSlice == 0 then [] else slices[|slices| - 1][sliceOffset..]
    }

    ghost predicate InSlice(bytesInSlice: nat, sliceOffset: nat)
      reads this
    {
      bytesInSlice > 0 ==> |slices| > 0 && sliceOffset + bytesInSlice == |slices[|slices| - 1]|
    }

    /** The state at the top of the loop of Xmit, as a value. */
    ghost function LoopView(trail: Metadata, trailMdLength: nat, bytesInSlice: nat, sliceOffset: nat,
                            data: seq<Bytes>): Loop
      reads this
      requires InSlice(bytesInSlice, sliceOffset)
    {
      Loop(View(), if trailMdLength > 0 then EncodeMetadata(trail) else [], Cut(bytesInSlice, sliceOffset), data)
    }

    /** The body of the loop of Xmit. */
    method XmitStep(trail: Metadata, trailMdLength0: nat, msgDataLeft0: nat, bytesInSlice0: nat,
                    sliceOffset0: nat, data0: seq<Bytes>)
      returns (trailMdLength: nat, msgDataLeft: nat, bytesInSlice: nat, sliceOffset: nat, data: seq<Bytes>)
      requires Valid() && OpenMessage() && InSlice(bytesInSlice0, sliceOffset0)
      requires trailMdLength0 == 0 || trailMdLength0 == |EncodeMetadata(trail)|
      requires msgDataLeft0 == bytesInSlice0 + |Concat(data0)|
      modifies this
      ensures Valid() && OpenMessage() && InSlice(bytesInSlice, sliceOffset)
      ensures trailMdLength == 0 || trailMdLength == trailMdLength0
      ensures msgDataLeft == bytesInSlice + |Concat(data)|
      ensures LoopView(trail, trailMdLength, bytesInSlice, sliceOffset, data) ==
              Step(old(LoopView(trail, trailMdLength0, bytesInSlice0, sliceOffset0, data0)))
    {
      hide FlushIfFull, WriteTrailers, TakeData, EncodeMetadata, PiecesOk;
      ghost var l := LoopView(trail, trailMdLength0, bytesInSlice0, sliceOffset0, data0);
      msgDataLeft, bytesInSlice, sliceOffset, data := msgDataLeft0, bytesInSlice0, sliceOffset0, data0;
      FlushWhenFull(trail, trailMdLength0, msgDataLeft0, bytesInSlice0, sliceOffset0, data0);
      trailMdLength := XmitTrailMd(trail, trailMdLength0, bytesInSlice, sliceOffset, data);
      ghost var b := WriteTrailers(FlushIfFull(l));
      if msgDataLeft > 0 {
        var chunkSize;
        bytesInSlice, sliceOffset, data, chunkSize := XmitData(bytesInSlice, sliceOffset, data, b);
        msgDataLeft := msgDataLeft - chunkSize;
      } else {
        NothingLeft(b);
      }
    }

    /** Sends the message if it is full, or if the trailers alone are left and do not fit. */
    method FlushWhenFull(ghost trail: Metadata, trailMdLength: nat, msgDataLeft: nat, ghost bytesInSlice: nat,
                         ghost sliceOffset: nat, ghost data: seq<Bytes>)
      requires Valid() && OpenMessage() && InSlice(bytesInSlice, sliceOffset)
      requires trailMdLength == 0 || trailMdLength == |EncodeMetadata(trail)|
      requires msgDataLeft == bytesInSlice + |Concat(data)|
      modifies this
      ensures Valid() && OpenMessage() && InSlice(bytesInSlice, sliceOffset)
      ensures LoopView(trail, trailMdLength, bytesInSlice, sliceOffset, data) ==
              FlushIfFull(old(LoopView(trail, trailMdLength, bytesInSlice, sliceOffset, data)))
    {
      hide EncodeMetadata;
      if xmitSize == maxMessageLength || (msgDataLeft == 0 && xmitSize + trailMdLength > maxMessageLength) {
        Flush();
      }
    }

    /** Adds message data to the message, taking the next slice if the current one is used up. */
    method XmitData(bytesInSlice0: nat, sliceOffset0: nat, data0: seq<Bytes>, ghost l: Loop)
      returns (bytesInSlice: nat, sliceOffset: nat, data: seq<Bytes>, chunkSize: nat)
      requires Valid() && InSlice(bytesInSlice0, sliceOffset0) && l.Left() > 0
      requires l == Loop(View(), l.trail, Cut(bytesInSlice0, sliceOffset0), data0)
      modifies this
      ensures Valid() && InSlice(bytesInSlice, sliceOffset) && OpenMessage() == old(OpenMessage())
      ensures Loop(View(), l.trail, Cut(bytesInSlice, sliceOffset), data) == TakeData(l)
      ensures bytesInSlice + |Concat(data)| + chunkSize == bytesInSlice0 + |Concat(data0)|
    {
      bytesInSlice, sliceOffset, data := bytesInSlice0, sliceOffset0, data0;
      if bytesInSlice == 0 {
        bytesInSlice, sliceOffset, data := NextSlice(data);
      }
      bytesInSlice, sliceOffset, chunkSize := PutChunk(bytesInSlice, sliceOffset, TakeSlice(l));
    }

    /** Writes the trailers if the message can hold all that is left, with room to spare; it is then
        the last one. */
    method XmitTrailMd(trail: Metadata, trailMdLength0: nat, bytesInSlice: nat, sliceOffset: nat, data: seq<Bytes>)
      returns (trailMdLength: nat)
      requires Valid() && InSlice(bytesInSlice, sliceOffset)
      requires trailMdLength0 == 0 || trailMdLength0 == |EncodeMetadata(trail)|
      modifies this
      ensures Valid() && OpenMessage() == old(OpenMessage()) && hdr.flags == old(hdr.flags) && slices == old(slices)
      ensures trailMdLength == 0 || trailMdLength == trailMdLength0
      ensures LoopView(trail, trailMdLength, bytesInSlice, sliceOffset, data) ==
              WriteTrailers(old(LoopView(trail, trailMdLength0, bytesInSlice, sliceOffset, data)))
    {
      trailMdLength := trailMdLength0;
      if xmitSize + trailMdLength + (bytesInSlice + |Concat(data)|) < maxMessageLength && trailMdLength > 0 {
        var _ := AddMetadata(trail);
        hdr := hdr.(trailMdBytes := trailMdLength);
        trailMdLength := 0;
      }
    }

    /** Takes the first slice of the data that is left. */
    method NextSlice(data0: seq<Bytes>) returns (bytesInSlice: nat, sliceOffset: nat, data: seq<Bytes>)
      requires Valid() && |Concat(data0)| > 0
      modifies this
      ensures |data0| > 0 && data == data0[1..]
      ensures InSlice(bytesInSlice, sliceOffset) && Cut(bytesInSlice, sliceOffset) == data0[0]
      ensures bytesInSlice == |data0[0]|
      ensures Valid() && View() == old(View())
    {
      assert |data0| > 0;
      slices := slices + [data0[0]];
      bytesInSlice, sliceOffset, data := |data0[0]|, 0, data0[1..];
    }

    /** Puts as much of the current slice into the message as fits. */
    method PutChunk(bytesInSlice0: nat, sliceOffset0: nat, ghost l: Loop)
      returns (bytesInSlice: nat, sliceOffset: nat, chunkSize: nat)
      requires Valid() && InSlice(bytesInSlice0, sliceOffset0)
      requires l.s == View() && l.cut == Cut(bytesInSlice0, sliceOffset0)
      modifies this
      ensures Valid() && InSlice(bytesInSlice, sliceOffset) && OpenMessage() == old(OpenMessage())
      ensures Loop(View(), l.trail, Cut(bytesInSlice, sliceOffset), l.data) == Model.PutChunk(l)
      ensures bytesInSlice + chunkSize == bytesInSlice0
    {
      hide PiecesOk;
      ghost var cut := Cut(bytesInSlice0, sliceOffset0);
      chunkSize := RoomFor(bytesInSlice0);
      var chunk := if bytesInSlice0 == 0 then []
                   else slices[|slices| - 1][sliceOffset0..sliceOffset0 + chunkSize];
      assert chunk == cut[..chunkSize];
      PushVec(chunk);
      bytesInSlice, sliceOffset := bytesInSlice0 - chunkSize, sliceOffset0 + chunkSize;
      assert Cut(bytesInSlice, sliceOffset) == cut[chunkSize..];
    }

    /** How much of a slice fits. The room left is an unsigned difference: it is huge if the message is too
        long already. */
    method RoomFor(bytesInSlice: nat) returns (chunkSize: nat)
      requires Valid()
      ensures chunkSize == ChunkSize(TxView(), bytesInSlice)
    {
      chunkSize := bytesInSlice;
      if xmitSize <= maxMessageLength && maxMessageLength - xmitSize < bytesInSlice {
        chunkSize := maxMessageLength - xmitSize;
      }
    }

    /** Adds a piece of message data to the message, without copying it. */
    method PushVec(chunk: Bytes)
      requires Valid()
      modifies this
      ensures Valid() && slices == old(slices)
      ensures TxView() == old(TxView()).(payload := old(payload) + chunk,
                                         hdr := old(hdr).(messageBytes := old(hdr.messageBytes) + |chunk|))
      ensures SameRx() && SameStatus()
    {
      AppendVec(chunk);
      hdr := hdr.(messageBytes := hdr.messageBytes + |chunk|);
    }

    method AppendVec(chunk: Bytes)
      requires Valid()
      modifies this`vecs, this`payload, this`xmitSize, this`lastVecAvail
      ensures Valid() && payload == old(payload) + chunk
    {
      VecBytesAppend(vecs, IoVec(|chunk|, chunk));
      vecs, payload := vecs + [IoVec(|chunk|, chunk)], payload + chunk;
      lastVecAvail := 0;
      xmitSize := xmitSize + |chunk|;
    }

    /** Puts initial metadata into the message; metadata that was waiting goes out first. */
    method XmitInitMd(md: Metadata)
      requires Valid() && OpenMessage()
      modifies this
      ensures Valid() && OpenMessage() && View() == AddInitialMetadata(old(View()), md)
    {
      if hdr.initMdBytes != 0 {
        Flush();
      }
      var n := AddMetadata(md);
      hdr := hdr.(initMdBytes := n, flags := hdr.flags.(initMdPresent := true));
    }

    /** The loop of Xmit: messages are filled and flushed until only the last is left. If it returns
        true the source does not return: an iteration has changed nothing, so that all later ones
        change nothing either. */
    method XmitLoop(trail: Metadata, trailMdLength0: nat, data0: seq<Bytes>) returns (spins: bool)
      requires Valid() && OpenMessage()
      requires trailMdLength0 == |EncodeMetadata(trail)|
      modifies this
      ensures Valid() && OpenMessage()
      ensures var r := RunLoop(Loop(old(View()), EncodeMetadata(trail), [], data0));
              View() == r.s && spins == r.Guard()
    {
      hide Step, EncodeMetadata, PiecesOk;
      var trailMdLength, data, msgDataLeft := trailMdLength0, data0, |Concat(data0)|;
      var bytesInSlice: nat, sliceOffset: nat := 0, 0;
      ghost var l := LoopView(trail, trailMdLength, bytesInSlice, sliceOffset, data);
      ghost var l0 := l;
      while trailMdLength + msgDataLeft > 0
        invariant Valid() && OpenMessage() && InSlice(bytesInSlice, sliceOffset)
        invariant trailMdLength == 0 || trailMdLength == |EncodeMetadata(trail)|
        invariant msgDataLeft == bytesInSlice + |Concat(data)|
        invariant l == LoopView(trail, trailMdLength, bytesInSlice, sliceOffset, data)
        invariant RunLoop(l) == RunLoop(l0)
        decreases trailMdLength, msgDataLeft, |data|, Pending(View().tx)
      {
        ghost var before := l;
        var was := (trailMdLength, msgDataLeft, |data|, |sent|);
        trailMdLength, msgDataLeft, bytesInSlice, sliceOffset, data :=
          XmitStep(trail, trailMdLength, msgDataLeft, bytesInSlice, sliceOffset, data);
        l := LoopView(trail, trailMdLength, bytesInSlice, sliceOffset, data);
        if l != before { StepProgress(before); }
        if was == (trailMdLength, msgDataLeft, |data|, |sent|) {
          return true;
        }
      }
      return false;
    }

    /** Sends the parts of an op. */
    method Xmit(op: SendOp) returns (outcome: Outcome)
      requires Valid() && OpenMessage()
      modifies this
      ensures Valid() && OpenMessage()
      ensures View() == Model.Xmit(old(View()), op).0 && outcome == Model.Xmit(old(View()), op).1
    {
      if op.initMd.Some? {
        XmitInitMd(op.initMd.value);
        if xmitSize > maxMessageLength {
          error := Some(TooMuchMetadata);
          return Rejected;
        }
      }
      var trail := if op.trailMd.Some? then op.trailMd.value else [];
      var trailMdLength := MetadataLength(trail);
      if trailMdLength > maxMessageLength - HEADER_LENGTH {
        error := Some(TooMuchMetadata);
        return Rejected;
      }
      assert View() == WithInitial(old(View()), op);
      var data := if op.message.Some? then op.message.value else [];
      var spins := XmitLoop(trail, trailMdLength, data);
      if spins {
        return Spins;
      }
      FinishOp(op);
      return Done;
    }

    /** Marks the message under construction as the last one of the op. */
    method MarkFinal(op: SendOp)
      requires Valid()
      modifies this
      ensures Valid() && View() == SetFinalFlags(old(View()), op)
    {
      if op.message.Some? {
        hdr := hdr.(flags := hdr.flags.(messageComplete := true));
      }
      if op.trailMd.Some? {
        hdr := hdr.(flags := hdr.flags.(trailMdPresent := true));
      }
    }

    /** What follows the loop of Xmit. */
    method FinishOp(op: SendOp)
      requires Valid() && OpenMessage()
      modifies this
      ensures Valid() && OpenMessage() && View() == FinishXmit(old(View()), op)
    {
      MarkFinal(op);
      if op.message.Some? || op.trailMd.Some? {
        Flush();
      }
      if op.trailMd.Some? {
        NoteTrailMdSent();
      }
    }

    /** The trailers are out: on a server those of the other side may now be handed over. */
    method NoteTrailMdSent()
      modifies this
      ensures var rx := old(RxView()).(trailMdSent := true);
              RxView() == if isServer then Model.TransferData(rx) else rx
      ensures SameTx() && SameStatus()
    {
      trailMdSent := true;
      if isServer {
        TransferData();
      }
    }

    /** Answers the waiting request with a message that says nothing. */
    method SendDummyResponse()
      requires homaRequestId != 0
      modifies this
      ensures TxView() == Model.SendDummyResponse(old(TxView()))
      ensures Memory() == old(Memory()) && SameRx() && SameStatus()
    {
      dummies := dummies + [HomaMessage(Reply(homaRequestId),
                                        NewHeader(streamId, 0).(flags := NO_FLAGS.(emptyResponse := true)), [])];
      var _ := SendMsg();
      homaRequestId := 0;
    }

    method TransferInitMd()
      requires |incoming| > 0
      modifies this
      ensures RxView() == OfferInitMd(old(RxView())) && SameTx() && SameStatus()
    {
      hide InitMd, ParseMetadata;
      if initMdCb.Some? && incoming[0].flags.initMdPresent {
        TakeInitMd();
      }
      assert incoming == SetFront(old(incoming), incoming[0]);
    }

    method TakeInitMd()
      requires |incoming| > 0 && initMdCb.Some? && incoming[0].flags.initMdPresent
      modifies this`initMdCb, this`incoming, this`done
      ensures initMdCb == None
      ensures var m := old(incoming[0]);
              incoming == old(incoming)[0 := m.(flags := m.flags.(initMdPresent := false))] &&
              done == old(done) + [InitMdReady(old(initMdCb.value.cb), ParseMetadata(InitMd(m)),
                                               old(initMdCb.value.wantsTrailMdAvail) && m.flags.trailMdPresent)]
    {
      var m, c := incoming[0], initMdCb.value;
      var md := ParseMetadata(InitMd(m));
      var avail := c.wantsTrailMdAvail && m.flags.trailMdPresent;
      initMdCb := None;
      incoming := incoming[0 := m.(flags := m.flags.(initMdPresent := false))];
      done := done + [InitMdReady(c.cb, md, avail)];
    }

    method TransferBody()
      requires |incoming| > 0
      modifies this
      ensures RxView() == OfferBody(old(RxView())) && SameTx() && SameStatus()
    {
      if messageCb.Some? {
        CollectBody();
        CompleteMessage();
      }
      assert incoming == SetFront(old(incoming), incoming[0]);
    }

    /** Adds the data of the front message to the gRPC message being received. */
    method CollectBody()
      requires |incoming| > 0 && messageCb.Some?
      modifies this
      ensures var m := old(incoming[0]);
              RxView() == old(RxView()).(messageBody := Some(BodySoFar(old(RxView())) + Body(m)),
                                         incoming := SetFront(old(incoming), m.(bodyLength := 0)))
      ensures SameTx() && SameStatus()
    {
      if messageBody.None? {
        messageBody := Some([]);
      }
      messageBody := Some(messageBody.value + Body(incoming[0]));
      incoming := incoming[0 := incoming[0].(bodyLength := 0)];
    }

    /** If the front message was the last piece of a gRPC message, completes the latter. */
    method CompleteMessage()
      requires |incoming| > 0 && messageCb.Some? && messageBody.Some?
      modifies this
      ensures var m := old(incoming[0]);
              RxView() == if m.flags.messageComplete
                          then old(RxView()).(messageCb := None,
                                 done := old(done) + [MessageReady(old(messageCb.value), old(messageBody.value))],
                                 incoming := SetFront(old(incoming), m.(flags := m.flags.(messageComplete := false))))
                          else old(RxView())
      ensures SameTx() && SameStatus()
    {
      var m := incoming[0];
      if m.flags.messageComplete {
        done := done + [MessageReady(messageCb.value, messageBody.value)];
        messageCb := None;
        incoming := incoming[0 := m.(flags := m.flags.(messageComplete := false))];
      }
    }

    method TransferTrailMd()
      requires |incoming| > 0
      modifies this
      ensures RxView() == OfferTrailMd(old(RxView())) && SameTx() && SameStatus()
    {
      var m := incoming[0];
      if m.flags.trailMdPresent {
        eof := true;
        TakeTrailMd();
      }
      assert incoming == SetFront(old(incoming), incoming[0]);
    }

    method TakeTrailMd()
      requires |incoming| > 0 && incoming[0].flags.trailMdPresent && eof
      modifies this
      ensures RxView() == OfferTrailMd(old(RxView())) && SameTx() && SameStatus()
    {
      hide TrailMd, ParseMetadata;
      if trailMdCb.Some? && (trailMdSent || !isServer) {
        var m := incoming[0];
        done := done + [TrailMdReady(trailMdCb.value, ParseMetadata(TrailMd(m)))];
        trailMdCb := None;
        incoming := incoming[0 := m.(flags := m.flags.(trailMdPresent := false))];
      }
      assert incoming == SetFront(old(incoming), incoming[0]);
    }

    /** Hands over whatever gRPC has asked for and the messages received so far contain. */
    method TransferData()
      modifies this
      ensures RxView() == Model.TransferData(old(RxView())) && SameTx() && SameStatus()
    {
      while |incoming| > 0
        invariant TransferLoop(RxView()) == TransferLoop(old(RxView())) && SameTx() && SameStatus()
        decreases |incoming|
      {
        if incoming[0].sequence > nextIncomingSequence {
          break;
        }
        var held := TransferFront();
        if held {
          break;
        }
      }
      EndOfFile();
    }

    /** gRPC may have asked for a message when there will be no more. */
    method EndOfFile()
      modifies this
      ensures RxView() == SignalEof(old(RxView())) && SameTx() && SameStatus()
    {
      if eof && messageCb.Some? {
        done := done + [NoMessage(messageCb.value)];
        messageCb := None;
        messageBody := None;
      }
    }

    /** The body of the loop of TransferData: one message. */
    method TransferFront() returns (held: bool)
      requires FrontAvailable(RxView())
      modifies this
      ensures var r := Offer(old(RxView()));
              held == Held(r.incoming[0]) && RxView() == if held then r else Retire(r)
      ensures SameTx() && SameStatus()
    {
      hide Offer, OfferInitMd, OfferBody, OfferTrailMd;
      OfferInSteps(RxView());
      TransferInitMd();
      TransferBody();
      TransferTrailMd();
      var m := incoming[0];
      if m.flags.initMdPresent || m.flags.trailMdPresent || m.flags.messageComplete || m.bodyLength != 0 {
        return true;
      }
      if m.sequence == nextIncomingSequence {
        nextIncomingSequence := nextIncomingSequence + 1;
      }
      incoming := incoming[1..];
      return false;
    }

    /** Remembers the request that a message carries; there is room for one only. */
    method SaveRequest(msg: Incoming, homaId: nat)
      modifies this
      ensures TxView() == NoteRequest(old(TxView()), msg, homaId)
      ensures Memory() == old(Memory()) && SameRx() && SameStatus()
    {
      if msg.flags.request {
        if homaRequestId != 0 {
          SendDummyResponse();
        }
        homaRequestId := homaId;
      }
    }

    /** Takes in a message from the other side. */
    method HandleIncoming(msg: Incoming, homaId: nat)
      modifies this
      ensures View() == Model.HandleIncoming(old(View()), msg, homaId) && Memory() == old(Memory())
    {
      SaveRequest(msg, homaId);
      if msg.flags.cancelled {
        cancelled := true;
        NotifyError(CancelledByPeer);
        return;
      }
      QueueMessage(msg);
    }

    /** Queues a message that is not a duplicate, and hands over what can be handed over. */
    method QueueMessage(msg: Incoming)
      modifies this
      ensures RxView() == Enqueue(old(RxView()), msg) && SameTx() && SameStatus()
    {
      if msg.sequence < nextIncomingSequence {
        return;
      }
      var inserted := InsertIncoming(msg);
      if inserted {
        TransferData();
      }
    }

    /** Finds the place of a message among those that are waiting, searching from the end; a duplicate
        is dropped. */
    method InsertIncoming(msg: Incoming) returns (inserted: bool)
      modifies this
      ensures var r := Insert(old(incoming), msg);
              inserted == r.Some? &&
              RxView() == old(RxView()).(incoming := if r.Some? then r.value else old(incoming))
      ensures SameTx() && SameStatus()
    {
      var i := FindPlace(msg);
      if i.None? {
        return false;
      }
      incoming := incoming[..i.value] + [msg] + incoming[i.value..];
      return true;
    }

    /** The index at which a message belongs, or nothing if it is there already. */
    method FindPlace(msg: Incoming) returns (place: Option<nat>)
      ensures place.Some? ==> place.value <= |incoming|
      ensures Insert(incoming, msg) == if place.None? then None
              else Some(incoming[..place.value] + [msg] + incoming[place.value..])
    {
      var i := |incoming|;
      assert incoming[..i] == incoming;
      ExtendNothing(Insert(incoming, msg), incoming[i..]);
      while i > 0
        invariant 0 <= i <= |incoming|
        invariant Insert(incoming, msg) == Extend(Insert(incoming[..i], msg), incoming[i..])
      {
        var q := incoming[..i];
        assert q[..i - 1] == incoming[..i - 1];
        if incoming[i - 1].sequence == msg.sequence {
          return None;
        }
        if incoming[i - 1].sequence < msg.sequence {
          break;
        }
        ExtendTwice(Insert(incoming[..i - 1], msg), incoming[i - 1], incoming[i..]);
        assert [incoming[i - 1]] + incoming[i..] == incoming[i - 1..];
        i := i - 1;
      }
      if i == 0 { assert [] + [msg] == [msg]; }
      assert Insert(incoming[..i], msg) == Some(incoming[..i] + [msg]);
      return Some(i);
    }

    /** Records a fatal error and fails every waiting callback. */
    method NotifyError(e: Error)
      modifies this
      ensures RxView() == FailAll(old(RxView()), e) && error == Some(e) && cancelled && SameTx()
    {
      error := Some(e);
      FailInitMdCallback(e);
      FailMessageCallback(e);
      FailTrailMdCallback(e);
      cancelled := true;
    }

    method FailInitMdCallback(e: Error)
      modifies this
      ensures RxView() == FailInitMd(old(RxView()), e) && SameTx() && SameStatus()
    {
      if initMdCb.Some? {
        done := done + [Failed(initMdCb.value.cb, e)];
        initMdCb := None;
      }
    }

    method FailMessageCallback(e: Error)
      modifies this
      ensures RxView() == FailMessage(old(RxView()), e) && SameTx() && SameStatus()
    {
      if messageCb.Some? {
        done := done + [Failed(messageCb.value, e)];
        messageCb := None;
      }
    }

    method FailTrailMdCallback(e: Error)
      modifies this
      ensures RxView() == FailTrailMd(old(RxView()), e) && SameTx() && SameStatus()
    {
      if trailMdCb.Some? {
        done := done + [Failed(trailMdCb.value, e)];
        trailMdCb := None;
      }
    }

    /** Tells the other side that the RPC is cancelled. */
    method CancelPeer()
      requires Valid()
      modifies this
      ensures Valid() && OpenMessage() && View() == Model.CancelPeer(old(View()))
    {
      if cancelled {
        return;
      }
      hdr := hdr.(flags := hdr.flags.(cancelled := true));
      Flush();
      cancelled := true;
    }

    /** The destructor: a request that is still waiting is answered. */
    method Destroy()
      modifies this
      ensures View() == Model.Destroy(old(View()))
    {
      if homaRequestId != 0 {
        SendDummyResponse();
      }
    }
  }

  lemma NothingLeft(l: Loop)
    requires l.Left() == 0
    ensures TakeData(l) == l
  {}

  function Extend(r: Option<seq<Incoming>>, tail: seq<Incoming>): Option<seq<Incoming>> {
    if r.None? then None else Some(r.value + tail)
  }

  lemma ExtendTwice(r: Option<seq<Incoming>>, last: Incoming, tail: seq<Incoming>)
    ensures Extend(Extend(r, [last]), tail) == Extend(r, [last] + tail)
  {
    if r.Some? { assert r.value + [last] + tail == r.value + ([last] + tail); }
  }

  lemma ExtendNothing(r: Option<seq<Incoming>>, tail: seq<Incoming>)
    requires tail == []
    ensures Extend(r, tail) == r
  {
    if r.Some? { assert r.value + tail == r.value; }
  }
}
