/** The state of a HomaStream as a value, and what each of its methods does to that value.

    The class in HomaStream.dfy changes its fields in place; every one of its methods is proved to
    turn its view into what the function of the same name here says. The theorems about streams are
    stated about these functions. */
module StreamModel {
  import opened Basics
  import opened Wire

  datatype Error = SendFailed | TooMuchMetadata | CancelledByPeer | External(code: nat)

  /** Whether a Homa message starts a Homa RPC or answers one. */
  datatype Route = Request | Reply(homaId: nat)

  datatype HomaMessage = HomaMessage(route: Route, header: Header, payload: Bytes)

  /** A received message; bodyLength becomes 0 and flags are cleared as its parts are handed to gRPC. */
  datatype Incoming = Incoming(
    sequence: nat, flags: Flags, payload: Bytes, initMdLength: nat, trailMdLength: nat, bodyLength: nat)

  /** A part of a message; every message that was read contains all of its parts. */
  function Part(payload: Bytes, start: nat, length: nat): Bytes {
    if start + length <= |payload| then payload[start..start + length] else []
  }

  function InitMd(m: Incoming): Bytes { Part(m.payload, 0, m.initMdLength) }

  function TrailMd(m: Incoming): Bytes { Part(m.payload, m.initMdLength, m.trailMdLength) }

  function Body(m: Incoming): Bytes { Part(m.payload, m.initMdLength + m.trailMdLength, m.bodyLength) }

  datatype InitMdCallback = InitMdCallback(cb: nat, wantsTrailMdAvail: bool)

  /** A callback handed to ExecCtx::Run, with the data it finds. */
  datatype Completion =
    | InitMdReady(cb: nat, md: seq<Pair>, trailMdAvail: bool)
    | MessageReady(cb: nat, body: Bytes)
    | NoMessage(cb: nat)
    | TrailMdReady(cb: nat, md: seq<Pair>)
    | Failed(cb: nat, error: Error)

  /** The transmit side: hdr and payload are the message under construction. sendErrors tells, for
      the sendmsg calls to come, whether they fail. */
  datatype Tx = Tx(
    streamId: nat, maxMessageLength: nat, hdr: Header, payload: Bytes, nextXmitSequence: nat,
    homaRequestId: nat, sent: seq<HomaMessage>, dummies: seq<HomaMessage>, sendErrors: seq<bool>)
  {
    function XmitSize(): nat { HEADER_LENGTH + |payload| }
  }

  /** The receive side; done logs the completed callbacks. */
  datatype Rx = Rx(
    incoming: seq<Incoming>, nextIncomingSequence: nat, initMdCb: Option<InitMdCallback>,
    messageBody: Option<Bytes>, messageCb: Option<nat>, trailMdCb: Option<nat>, eof: bool,
    trailMdSent: bool, isServer: bool, done: seq<Completion>)

  datatype Stream = Stream(tx: Tx, rx: Rx, error: Option<Error>, cancelled: bool)

  /** The parts of a gRPC stream op. A message is a list of slices. */
  datatype SendOp = SendOp(initMd: Option<Metadata>, message: Option<seq<Bytes>>, trailMd: Option<Metadata>)
  datatype RecvOp = RecvOp(initMd: Option<InitMdCallback>, message: Option<nat>, trailMd: Option<nat>)

  // ---------------------------------------------------------------- transmit side

  function ResetXmit(tx: Tx): Tx {
    tx.(hdr := NewHeader(tx.streamId, tx.nextXmitSequence), payload := [],
        nextXmitSequence := tx.nextXmitSequence + 1)
  }

  /** Does the next sendmsg call fail? */
  predicate NextSendFails(tx: Tx) { tx.sendErrors != [] && tx.sendErrors[0] }

  function AfterSend(tx: Tx): Tx {
    tx.(sendErrors := if tx.sendErrors == [] then [] else tx.sendErrors[1..])
  }

  predicate NothingToFlush(s: Stream) {
    (s.tx.XmitSize() <= HEADER_LENGTH && s.tx.hdr.flags == NO_FLAGS) || s.cancelled
  }

  /** The message that flush puts on the wire: a reply if a request is waiting for one. */
  function Outgoing(tx: Tx): HomaMessage {
    if tx.homaRequestId == 0
    then HomaMessage(Request, tx.hdr.(flags := tx.hdr.flags.(request := true)), tx.payload)
    else HomaMessage(Reply(tx.homaRequestId), tx.hdr, tx.payload)
  }

  function Flush(s: Stream): Stream {
    if NothingToFlush(s) then s
    else
      var tx := AfterSend(s.tx).(sent := s.tx.sent + [Outgoing(s.tx)], homaRequestId := 0);
      s.(tx := ResetXmit(tx), error := if NextSendFails(s.tx) then Some(SendFailed) else s.error)
  }

  function DummyResponse(tx: Tx): HomaMessage {
    HomaMessage(Reply(tx.homaRequestId), NewHeader(tx.streamId, 0).(flags := NO_FLAGS.(emptyResponse := true)), [])
  }

  function SendDummyResponse(tx: Tx): Tx {
    AfterSend(tx).(dummies := tx.dummies + [DummyResponse(tx)], homaRequestId := 0)
  }

  /** The state at the top of xmit's loop: trailers still to be written (empty once they are, or if
      there are none), what is left of the slice being sent, and the slices not yet taken. */
  datatype Loop = Loop(s: Stream, trail: Bytes, cut: Bytes, data: seq<Bytes>)
  {
    function Left(): nat { |cut| + |Concat(data)| }
    predicate Guard() { |trail| + Left() > 0 }
  }

  function FlushIfFull(l: Loop): Loop {
    var tx := l.s.tx;
    if tx.XmitSize() == tx.maxMessageLength ||
       (l.Left() == 0 && tx.XmitSize() + |l.trail| > tx.maxMessageLength)
    then l.(s := Flush(l.s)) else l
  }

  function WriteTrailers(l: Loop): Loop {
    var tx := l.s.tx;
    if tx.XmitSize() + |l.trail| + l.Left() < tx.maxMessageLength && |l.trail| > 0
    then l.(s := l.s.(tx := tx.(payload := tx.payload + l.trail, hdr := tx.hdr.(trailMdBytes := |l.trail|))),
            trail := [])
    else l
  }

  function TakeSlice(l: Loop): Loop {
    if l.cut == [] && l.data != [] then l.(cut := l.data[0], data := l.data[1..]) else l
  }

  /** The room left in the message; the subtraction is unsigned, so an oversized message seems to
      have more room than any slice needs. */
  function ChunkSize(tx: Tx, bytesInSlice: nat): (n: nat)
    ensures n <= bytesInSlice
  {
    if tx.XmitSize() > tx.maxMessageLength then bytesInSlice
    else Min(tx.maxMessageLength - tx.XmitSize(), bytesInSlice)
  }

  function PutChunk(l: Loop): Loop {
    var tx, n := l.s.tx, ChunkSize(l.s.tx, |l.cut|);
    l.(s := l.s.(tx := tx.(payload := tx.payload + l.cut[..n],
                           hdr := tx.hdr.(messageBytes := tx.hdr.messageBytes + n))),
       cut := l.cut[n..])
  }

  function TakeData(l: Loop): Loop {
    if l.Left() > 0 then PutChunk(TakeSlice(l)) else l
  }

  /** One iteration of xmit's loop. */
  function Step(l: Loop): Loop { TakeData(WriteTrailers(FlushIfFull(l))) }

  function Pending(tx: Tx): nat { |tx.payload| + if tx.hdr.flags == NO_FLAGS then 0 else 1 }

  lemma TakeSliceKeeps(l: Loop)
    ensures TakeSlice(l).Left() == l.Left()
    ensures TakeSlice(l).cut + Concat(TakeSlice(l).data) == l.cut + Concat(l.data)
    ensures l.Left() > 0 && l.cut == [] ==> l.data != []
  {}

  lemma PutChunkKeeps(l: Loop)
    ensures PutChunk(l).data == l.data && PutChunk(l).trail == l.trail
    ensures PutChunk(l).Left() == l.Left() - ChunkSize(l.s.tx, |l.cut|)
  {}

  /** An iteration that changes anything makes progress. */
  lemma StepProgress(l: Loop)
    requires l.Guard() && Step(l) != l
    ensures var n := Step(l);
            |n.trail| < |l.trail| || (|n.trail| == |l.trail| &&
            (n.Left() < l.Left() || (n.Left() == l.Left() &&
            (|n.data| < |l.data| || (|n.data| == |l.data| && Pending(n.s.tx) < Pending(l.s.tx) &&
            |n.s.tx.sent| > |l.s.tx.sent|)))))
  {
    var a := FlushIfFull(l);
    var b := WriteTrailers(a);
    var c := Step(l);
    assert a != l ==> Pending(a.s.tx) < Pending(l.s.tx) && |a.s.tx.sent| > |l.s.tx.sent|;
    if b.Left() > 0 {
      TakeSliceKeeps(b);
      PutChunkKeeps(TakeSlice(b));
      if b == a && TakeSlice(b) == b && ChunkSize(b.s.tx, |b.cut|) == 0 {
        assert b.cut[..0] == [] && b.cut[0..] == b.cut && b.s.tx.payload + [] == b.s.tx.payload;
        assert c == b;
      }
    }
  }

  /** The whole loop. Where an iteration changes nothing the loop of the source runs for ever; the
      result is then the state it stays in, whose guard still holds. */
  function RunLoop(l: Loop): Loop
    decreases |l.trail|, l.Left(), |l.data|, Pending(l.s.tx)
  {
    if !l.Guard() || Step(l) == l then l
    else
      StepProgress(l);
      RunLoop(Step(l))
  }

  datatype Outcome = Done | Rejected | Spins

  /** Puts initial metadata into the message under construction. */
  function AddInitialMetadata(s: Stream, md: Metadata): Stream {
    var s1 := if s.tx.hdr.initMdBytes != 0 then Flush(s) else s;
    var bytes := EncodeMetadata(md);
    s1.(tx := s1.tx.(payload := s1.tx.payload + bytes,
                     hdr := s1.tx.hdr.(initMdBytes := |bytes|,
                                       flags := s1.tx.hdr.flags.(initMdPresent := true))))
  }

  function TrailBytes(op: SendOp): Bytes {
    if op.trailMd.Some? then EncodeMetadata(op.trailMd.value) else []
  }

  function Slices(op: SendOp): seq<Bytes> { if op.message.Some? then op.message.value else [] }

  function WithInitial(s: Stream, op: SendOp): Stream {
    if op.initMd.Some? then AddInitialMetadata(s, op.initMd.value) else s
  }

  function SetFinalFlags(s: Stream, op: SendOp): Stream {
    var f := s.tx.hdr.flags;
    var g := f.(messageComplete := f.messageComplete || op.message.Some?,
                trailMdPresent := f.trailMdPresent || op.trailMd.Some?);
    s.(tx := s.tx.(hdr := s.tx.hdr.(flags := g)))
  }

  /** What follows the loop. */
  function FinishXmit(s: Stream, op: SendOp): Stream {
    var s1 := SetFinalFlags(s, op);
    var s2 := if op.message.Some? || op.trailMd.Some? then Flush(s1) else s1;
    if op.trailMd.None? then s2
    else
      var rx := s2.rx.(trailMdSent := true);
      s2.(rx := if rx.isServer then TransferData(rx) else rx)
  }

  /** The loop of an op, as it starts. */
  function LoopOf(s: Stream, op: SendOp): Loop { Loop(WithInitial(s, op), TrailBytes(op), [], Slices(op)) }

  function Xmit(s: Stream, op: SendOp): (Stream, Outcome) {
    var s1 := WithInitial(s, op);
    if op.initMd.Some? && s1.tx.XmitSize() > s1.tx.maxMessageLength then
      (s1.(error := Some(TooMuchMetadata)), Rejected)
    else if |TrailBytes(op)| > s1.tx.maxMessageLength - HEADER_LENGTH then
      (s1.(error := Some(TooMuchMetadata)), Rejected)
    else
      var l := RunLoop(LoopOf(s, op));
      if l.Guard() then (l.s, Spins) else (FinishXmit(l.s, op), Done)
  }

  // ---------------------------------------------------------------- receive side

  function BodySoFar(rx: Rx): Bytes { if rx.messageBody.Some? then rx.messageBody.value else [] }

  /** On a server, trailers are withheld until its own have been sent. */
  predicate MayTakeTrailers(rx: Rx) { rx.trailMdSent || !rx.isServer }

  predicate GivesInitMd(rx: Rx, m: Incoming) { rx.initMdCb.Some? && m.flags.initMdPresent }

  predicate GivesMessage(rx: Rx, m: Incoming) { rx.messageCb.Some? && m.flags.messageComplete }

  predicate GivesTrailMd(rx: Rx, m: Incoming) {
    rx.trailMdCb.Some? && MayTakeTrailers(rx) && m.flags.trailMdPresent
  }

  function SetFront(q: seq<Incoming>, m: Incoming): (r: seq<Incoming>)
    requires |q| > 0
    ensures |r| == |q| && r[0] == m
  {
    [m] + q[1..]
  }

  /** Hands the front message's initial metadata to gRPC, if gRPC has asked for it. */
  function OfferInitMd(rx: Rx): (r: Rx)
    requires |rx.incoming| > 0
    ensures |r.incoming| == |rx.incoming|
  {
    var m := rx.incoming[0];
    var give := GivesInitMd(rx, m);
    rx.(initMdCb := if give then None else rx.initMdCb,
        done := if give
                then rx.done + [InitMdReady(rx.initMdCb.value.cb, ParseMetadata(InitMd(m)),
                                            rx.initMdCb.value.wantsTrailMdAvail && m.flags.trailMdPresent)]
                else rx.done,
        incoming := SetFront(rx.incoming, m.(flags := m.flags.(initMdPresent := m.flags.initMdPresent && !give))))
  }

  /** Adds the front message's data to the gRPC message being received, and completes the latter if
      this is its last piece. */
  function OfferBody(rx: Rx): (r: Rx)
    requires |rx.incoming| > 0
    ensures |r.incoming| == |rx.incoming|
  {
    var m := rx.incoming[0];
    var give := GivesMessage(rx, m);
    var body := BodySoFar(rx) + Body(m);
    rx.(messageBody := if rx.messageCb.Some? then Some(body) else rx.messageBody,
        messageCb := if give then None else rx.messageCb,
        done := if give then rx.done + [MessageReady(rx.messageCb.value, body)] else rx.done,
        incoming := SetFront(rx.incoming,
          m.(flags := m.flags.(messageComplete := m.flags.messageComplete && !give),
             bodyLength := if rx.messageCb.Some? then 0 else m.bodyLength)))
  }

  /** Notes the end of the stream, and hands the trailing metadata over if gRPC has asked for it. */
  function OfferTrailMd(rx: Rx): (r: Rx)
    requires |rx.incoming| > 0
    ensures |r.incoming| == |rx.incoming|
  {
    var m := rx.incoming[0];
    var give := GivesTrailMd(rx, m);
    rx.(eof := rx.eof || m.flags.trailMdPresent,
        trailMdCb := if give then None else rx.trailMdCb,
        done := if give then rx.done + [TrailMdReady(rx.trailMdCb.value, ParseMetadata(TrailMd(m)))] else rx.done,
        incoming := SetFront(rx.incoming, m.(flags := m.flags.(trailMdPresent := m.flags.trailMdPresent && !give))))
  }

  /** What is left of a message once gRPC has been offered all of it. */
  function Remains(rx: Rx, m: Incoming): Incoming {
    m.(flags := m.flags.(initMdPresent := m.flags.initMdPresent && !GivesInitMd(rx, m),
                         messageComplete := m.flags.messageComplete && !GivesMessage(rx, m),
                         trailMdPresent := m.flags.trailMdPresent && !GivesTrailMd(rx, m)),
       bodyLength := if rx.messageCb.Some? then 0 else m.bodyLength)
  }

  /** The callbacks that a message completes. */
  function CompletedBy(rx: Rx, m: Incoming): seq<Completion> {
    (if GivesInitMd(rx, m)
     then [InitMdReady(rx.initMdCb.value.cb, ParseMetadata(InitMd(m)),
                       rx.initMdCb.value.wantsTrailMdAvail && m.flags.trailMdPresent)] else []) +
    (if GivesMessage(rx, m) then [MessageReady(rx.messageCb.value, BodySoFar(rx) + Body(m))] else []) +
    (if GivesTrailMd(rx, m) then [TrailMdReady(rx.trailMdCb.value, ParseMetadata(TrailMd(m)))] else [])
  }

  /** One iteration of transferData's loop: the front message is offered to gRPC. */
  function Offer(rx: Rx): (r: Rx)
    requires |rx.incoming| > 0
    ensures |r.incoming| == |rx.incoming|
  {
    var m := rx.incoming[0];
    rx.(incoming := SetFront(rx.incoming, Remains(rx, m)),
        initMdCb := if GivesInitMd(rx, m) then None else rx.initMdCb,
        messageBody := if rx.messageCb.Some? then Some(BodySoFar(rx) + Body(m)) else rx.messageBody,
        messageCb := if GivesMessage(rx, m) then None else rx.messageCb,
        trailMdCb := if GivesTrailMd(rx, m) then None else rx.trailMdCb,
        eof := rx.eof || m.flags.trailMdPresent,
        done := rx.done + CompletedBy(rx, m))
  }

  /** The three parts of the message are offered one after the other. */
  lemma OfferInSteps(rx: Rx)
    requires |rx.incoming| > 0
    ensures OfferTrailMd(OfferBody(OfferInitMd(rx))) == Offer(rx)
  {
    hide ParseMetadata, Part;
    var a := OfferInitMd(rx);
    var b := OfferBody(a);
    var c := OfferTrailMd(b);
    var m := rx.incoming[0];
    assert a.incoming[1..] == rx.incoming[1..];
    assert b.incoming[1..] == rx.incoming[1..];
    assert c.incoming[1..] == rx.incoming[1..];
    assert c.incoming[0] == Remains(rx, m);
    assert c.done == rx.done + CompletedBy(rx, m);
  }

  /** Is there still something in the message that gRPC must take? */
  predicate Held(m: Incoming) {
    m.flags.initMdPresent || m.flags.trailMdPresent || m.flags.messageComplete || m.bodyLength != 0
  }

  function Retire(rx: Rx): Rx
    requires |rx.incoming| > 0
  {
    rx.(incoming := rx.incoming[1..],
        nextIncomingSequence := if rx.incoming[0].sequence == rx.nextIncomingSequence
                                then rx.nextIncomingSequence + 1 else rx.nextIncomingSequence)
  }

  predicate FrontAvailable(rx: Rx) {
    |rx.incoming| > 0 && rx.incoming[0].sequence <= rx.nextIncomingSequence
  }

  function TransferLoop(rx: Rx): Rx
    decreases |rx.incoming|
  {
    if !FrontAvailable(rx) then rx
    else
      var r := Offer(rx);
      if Held(r.incoming[0]) then r else TransferLoop(Retire(r))
  }

  function SignalEof(rx: Rx): Rx {
    if rx.eof && rx.messageCb.Some?
    then rx.(messageCb := None, messageBody := None, done := rx.done + [NoMessage(rx.messageCb.value)])
    else rx
  }

  function TransferData(rx: Rx): Rx { SignalEof(TransferLoop(rx)) }

  /** The backward search of handleIncoming for the place of a message; None if it is a duplicate. */
  function Insert(q: seq<Incoming>, m: Incoming): Option<seq<Incoming>> {
    if q == [] then Some([m])
    else
      var last := q[|q| - 1];
      if last.sequence == m.sequence then None
      else if last.sequence < m.sequence then Some(q + [m])
      else
        match Insert(q[..|q| - 1], m)
        case None => None
        case Some(r) => Some(r + [last])
  }

  function FailInitMd(rx: Rx, e: Error): Rx {
    if rx.initMdCb.Some? then rx.(initMdCb := None, done := rx.done + [Failed(rx.initMdCb.value.cb, e)]) else rx
  }

  function FailMessage(rx: Rx, e: Error): Rx {
    if rx.messageCb.Some? then rx.(messageCb := None, done := rx.done + [Failed(rx.messageCb.value, e)]) else rx
  }

  function FailTrailMd(rx: Rx, e: Error): Rx {
    if rx.trailMdCb.Some? then rx.(trailMdCb := None, done := rx.done + [Failed(rx.trailMdCb.value, e)]) else rx
  }

  function FailAll(rx: Rx, e: Error): Rx { FailTrailMd(FailMessage(FailInitMd(rx, e), e), e) }

  function NotifyError(s: Stream, e: Error): Stream {
    s.(error := Some(e), rx := FailAll(s.rx, e), cancelled := true)
  }

  function Register(rx: Rx, op: RecvOp): Rx {
    var r1 := if op.initMd.Some? then rx.(initMdCb := op.initMd) else rx;
    var r2 := if op.message.Some? then r1.(messageBody := None, messageCb := op.message) else r1;
    if op.trailMd.Some? then r2.(trailMdCb := op.trailMd) else r2
  }

  function SaveCallbacks(s: Stream, op: RecvOp): Stream {
    var s1 := s.(rx := Register(s.rx, op));
    if s1.error.Some? then NotifyError(s1, s1.error.value) else s1
  }

  /** What a receive op does: saveCallbacks, then transferData. */
  function Receive(s: Stream, op: RecvOp): Stream {
    var s1 := SaveCallbacks(s, op);
    s1.(rx := TransferData(s1.rx))
  }

  /** Remembers the request that a message carries, if it is one; an older one is answered first. */
  function NoteRequest(tx: Tx, m: Incoming, homaId: nat): Tx {
    if !m.flags.request then tx
    else (if tx.homaRequestId != 0 then SendDummyResponse(tx) else tx).(homaRequestId := homaId)
  }

  /** Queues a message and hands over what can be handed over; duplicates are dropped. */
  function Enqueue(rx: Rx, m: Incoming): Rx {
    if m.sequence < rx.nextIncomingSequence then rx
    else
      match Insert(rx.incoming, m)
      case None => rx
      case Some(q) => TransferData(rx.(incoming := q))
  }

  function HandleIncoming(s: Stream, m: Incoming, homaId: nat): Stream {
    var s1 := s.(tx := NoteRequest(s.tx, m, homaId));
    if m.flags.cancelled then NotifyError(s1.(cancelled := true), CancelledByPeer)
    else s1.(rx := Enqueue(s1.rx, m))
  }

  function CancelPeer(s: Stream): Stream {
    if s.cancelled then s
    else
      var s1 := s.(tx := s.tx.(hdr := s.tx.hdr.(flags := s.tx.hdr.flags.(cancelled := true))));
      Flush(s1).(cancelled := true)
  }

  function Destroy(s: Stream): Stream {
    if s.tx.homaRequestId != 0 then s.(tx := SendDummyResponse(s.tx)) else s
  }

  // ---------------------------------------------------------------- initial state

  function NewStream(isServer: bool, streamId: nat, maxMessageLength: nat, sendErrors: seq<bool>): Stream {
    Stream(ResetXmit(Tx(streamId, maxMessageLength, NewHeader(streamId, 0), [], 1, 0, [], [], sendErrors)),
           Rx([], 1, None, None, None, None, false, false, isServer, []), None, false)
  }
}
