/** Whole runs of one stream: any sequence of send ops, receive ops, arriving messages (in any order,
    with duplicates), cancellations and errors. */
module StreamRuns {
  import opened Basics
  import opened Wire
  import opened StreamModel
  import opened Fragmentation
  import opened Receiver

  datatype Event =
    | Send(send: SendOp)
    | Recv(recv: RecvOp)
    | Arrive(msg: Incoming, homaId: nat)
    | CancelStream(reason: Error)
    | ReadError(reason: Error)

  /** Homa ids are not zero; a send op from which xmit does not return ends the run. */
  predicate Possible(s: Stream, e: Event) {
    match e
    case Send(op) => !Xmit(s, op).1.Spins?
    case Arrive(m, homaId) => m.flags.request ==> homaId != 0
    case _ => true
  }

  function Apply(s: Stream, e: Event): Stream {
    match e
    case Send(op) => Xmit(s, op).0
    case Recv(op) => Receive(s, op)
    case Arrive(m, homaId) => HandleIncoming(s, m, homaId)
    case CancelStream(reason) => NotifyError(CancelPeer(s), reason)
    case ReadError(reason) => NotifyError(s, reason)
  }

  predicate PossibleRun(s: Stream, es: seq<Event>)
    decreases |es|
  {
    es == [] || (Possible(s, es[0]) && PossibleRun(Apply(s, es[0]), es[1..]))
  }

  function Run(s: Stream, es: seq<Event>): Stream
    decreases |es|
  {
    if es == [] then s else Run(Apply(s, es[0]), es[1..])
  }

  /** The three ways in which xmit ends. */
  lemma XmitShape(s: Stream, op: SendOp)
    ensures var r, l := Xmit(s, op).0, RunLoop(LoopOf(s, op));
            match Xmit(s, op).1
            case Rejected => r == WithInitial(s, op).(error := Some(TooMuchMetadata))
            case Spins => r == l.s
            case Done => !l.Guard() && r == FinishXmit(l.s, op)
  {
    hide WithInitial, FinishXmit, RunLoop, TrailBytes;
  }

  function CancelMark(s: Stream): Stream {
    s.(tx := s.tx.(hdr := s.tx.hdr.(flags := s.tx.hdr.flags.(cancelled := true))))
  }

  // ------------------------------------------------ one reply per request

  function ReplyTo(m: HomaMessage, id: nat): nat { if m.route == Reply(id) then 1 else 0 }

  function Replies(ms: seq<HomaMessage>, id: nat): nat {
    if ms == [] then 0 else Replies(ms[..|ms| - 1], id) + ReplyTo(ms[|ms| - 1], id)
  }

  /** How often a request has been answered, by a real message or a dummy. */
  function Answered(tx: Tx, id: nat): nat { Replies(tx.sent, id) + Replies(tx.dummies, id) }

  /** How often a request has been answered or waits for an answer. */
  function Accounted(tx: Tx, id: nat): nat {
    Answered(tx, id) + if tx.homaRequestId == id && id != 0 then 1 else 0
  }

  function IsRequest(e: Event, id: nat): nat {
    if e.Arrive? && e.msg.flags.request && e.homaId == id then 1 else 0
  }

  /** How often a request is received during a run. */
  function Requests(es: seq<Event>, id: nat): nat {
    if es == [] then 0 else IsRequest(es[0], id) + Requests(es[1..], id)
  }

  lemma RepliesAppend(ms: seq<HomaMessage>, m: HomaMessage, id: nat)
    ensures Replies(ms + [m], id) == Replies(ms, id) + ReplyTo(m, id)
  {
    assert (ms + [m])[..|ms|] == ms;
  }

  lemma FlushAccounts(s: Stream, id: nat)
    requires id != 0
    ensures Accounted(Flush(s).tx, id) == Accounted(s.tx, id)
  {
    RepliesAppend(s.tx.sent, Outgoing(s.tx), id);
  }

  lemma DummyAccounts(tx: Tx, id: nat)
    requires tx.homaRequestId != 0 && id != 0
    ensures Answered(SendDummyResponse(tx), id) == Accounted(tx, id) && SendDummyResponse(tx).homaRequestId == 0
  {
    RepliesAppend(tx.dummies, DummyResponse(tx), id);
  }

  /** Two transmit states that differ only in the message under construction. */
  predicate SameLog(a: Tx, b: Tx) {
    a.sent == b.sent && a.dummies == b.dummies && a.homaRequestId == b.homaRequestId
  }

  lemma StepLog(l: Loop)
    ensures SameLog(Step(l).s.tx, FlushIfFull(l).s.tx)
  {
    hide FlushIfFull;
    var a := FlushIfFull(l);
    assert SameLog(WriteTrailers(a).s.tx, a.s.tx);
    hide WriteTrailers;
  }

  lemma {:induction false} LoopAccounts(l: Loop, id: nat)
    requires id != 0
    ensures Accounted(RunLoop(l).s.tx, id) == Accounted(l.s.tx, id)
    decreases |l.trail|, l.Left(), |l.data|, Pending(l.s.tx)
  {
    if l.Guard() && Step(l) != l {
      StepProgress(l);
      FlushAccounts(l.s, id);
      StepLog(l);
      LoopAccounts(Step(l), id);
      hide Flush, Step, Replies;
    }
  }

  lemma WithInitialAccounts(s: Stream, op: SendOp, id: nat)
    requires id != 0
    ensures Accounted(WithInitial(s, op).tx, id) == Accounted(s.tx, id)
  {
    FlushAccounts(s, id);
    hide Flush;
  }

  lemma FinishAccounts(s: Stream, op: SendOp, id: nat)
    requires id != 0
    ensures Accounted(FinishXmit(s, op).tx, id) == Accounted(s.tx, id)
  {
    FlushAccounts(SetFinalFlags(s, op), id);
    hide Flush;
  }

  lemma XmitAccounts(s: Stream, op: SendOp, id: nat)
    requires id != 0
    ensures Accounted(Xmit(s, op).0.tx, id) == Accounted(s.tx, id)
  {
    hide Xmit, WithInitial, RunLoop, FinishXmit;
    XmitShape(s, op);
    WithInitialAccounts(s, op, id);
    LoopAccounts(LoopOf(s, op), id);
    FinishAccounts(RunLoop(LoopOf(s, op)).s, op, id);
  }

  /** An event leaves the requests that are answered or waiting as they were, except that a request
      that arrives joins them. */
  lemma EventAccounts(s: Stream, e: Event, id: nat)
    requires Possible(s, e) && id != 0
    ensures Accounted(Apply(s, e).tx, id) == Accounted(s.tx, id) + IsRequest(e, id)
  {
    hide Xmit, Flush, TransferData, Enqueue, FailAll, Register;
    match e
    case Send(op) => XmitAccounts(s, op, id);
    case Recv(op) =>
    case Arrive(m, homaId) => if s.tx.homaRequestId != 0 { DummyAccounts(s.tx, id); }
    case CancelStream(reason) => FlushAccounts(CancelMark(s), id);
    case ReadError(reason) =>
  }

  /** At every point of every run, each request has been received as often as it has been answered or
      waits for its answer. */
  lemma {:induction false} RequestsAccountedFor(s: Stream, es: seq<Event>, id: nat)
    requires PossibleRun(s, es) && id != 0
    ensures Accounted(Run(s, es).tx, id) == Accounted(s.tx, id) + Requests(es, id)
    decreases |es|
  {
    if es != [] {
      EventAccounts(s, es[0], id);
      RequestsAccountedFor(Apply(s, es[0]), es[1..], id);
    }
    hide Apply, Possible;
  }

  /** Over the life of a stream, up to and including its destructor, every request is answered exactly
      as often as it was received; a request that was not received is not answered. */
  lemma OneReplyPerRequest(isServer: bool, streamId: nat, max: nat, errors: seq<bool>, es: seq<Event>, id: nat)
    requires PossibleRun(NewStream(isServer, streamId, max, errors), es) && id != 0
    ensures Answered(Destroy(Run(NewStream(isServer, streamId, max, errors), es)).tx, id) == Requests(es, id)
  {
    var s := NewStream(isServer, streamId, max, errors);
    RequestsAccountedFor(s, es, id);
    var r := Run(s, es);
    if r.tx.homaRequestId != 0 { DummyAccounts(r.tx, id); }
  }

  // ------------------------------------------------ headers and numbering

  /** A message numbered n whose header tells the lengths of its parts and whether it is to be answered. */
  predicate Coherent(m: HomaMessage, streamId: nat, n: nat) {
    m.header.streamId == streamId && m.header.sequenceNum == n &&
    m.header.MessageLength() == HEADER_LENGTH + |m.payload| && !m.header.flags.emptyResponse &&
    (m.header.flags.request <==> m.route.Request?)
  }

  /** All messages sent are coherent and numbered 1, 2, 3, ...; the one under construction is next. */
  predicate SentOk(tx: Tx) {
    && tx.hdr.streamId == tx.streamId
    && tx.hdr.sequenceNum == |tx.sent| + 1
    && tx.nextXmitSequence == |tx.sent| + 2
    && forall i :: 0 <= i < |tx.sent| ==> Coherent(tx.sent[i], tx.streamId, i + 1)
  }

  predicate Building(s: Stream) {
    s.cancelled || (LaidOut(s.tx) && !s.tx.hdr.flags.emptyResponse && !s.tx.hdr.flags.request)
  }

  predicate BetweenOps(s: Stream) {
    SentOk(s.tx) && Building(s) &&
    (s.cancelled || (s.tx.hdr.trailMdBytes == 0 && s.tx.hdr.messageBytes == 0))
  }

  lemma FlushCoherent(s: Stream)
    requires SentOk(s.tx) && Building(s)
    ensures var r := Flush(s);
            SentOk(r.tx) && Building(r) && r.cancelled == s.cancelled &&
            (if NothingToFlush(s) then r == s else
             r.tx.payload == [] && r.tx.hdr.trailMdBytes == 0 && r.tx.hdr.messageBytes == 0 &&
             r.tx.hdr.initMdBytes == 0 && r.tx.hdr.flags == NO_FLAGS)
  {}

  predicate LoopCoherent(l: Loop) {
    SentOk(l.s.tx) && Building(l.s) && (l.s.cancelled || l.trail == [] || l.s.tx.hdr.trailMdBytes == 0)
  }

  lemma FlushIfFullCoherent(l: Loop)
    requires LoopCoherent(l)
    ensures LoopCoherent(FlushIfFull(l))
  {
    FlushCoherent(l.s);
    hide Flush, SentOk;
  }

  lemma WriteTrailersCoherent(l: Loop)
    requires LoopCoherent(l)
    ensures LoopCoherent(WriteTrailers(l))
  {}

  lemma TakeDataCoherent(l: Loop)
    requires LoopCoherent(l)
    ensures LoopCoherent(TakeData(l))
  {}

  lemma {:induction false} RunLoopCoherent(l: Loop)
    requires LoopCoherent(l)
    ensures LoopCoherent(RunLoop(l))
    decreases |l.trail|, l.Left(), |l.data|, Pending(l.s.tx)
  {
    hide LoopCoherent, FlushIfFull, WriteTrailers, TakeData;
    if l.Guard() && Step(l) != l {
      StepProgress(l);
      FlushIfFullCoherent(l);
      WriteTrailersCoherent(FlushIfFull(l));
      TakeDataCoherent(WriteTrailers(FlushIfFull(l)));
      RunLoopCoherent(Step(l));
    }
  }

  lemma WithInitialCoherent(s: Stream, op: SendOp)
    requires BetweenOps(s)
    ensures BetweenOps(WithInitial(s, op))
  {
    FlushCoherent(s);
    hide Flush;
  }

  lemma FinishCoherent(s: Stream, op: SendOp)
    requires SentOk(s.tx) && Building(s)
    requires op.message.Some? || op.trailMd.Some? || BetweenOps(s)
    ensures BetweenOps(FinishXmit(s, op))
  {
    FlushCoherent(SetFinalFlags(s, op));
    hide Flush, SentOk;
  }

  lemma XmitCoherent(s: Stream, op: SendOp)
    requires BetweenOps(s) && !Xmit(s, op).1.Spins?
    ensures BetweenOps(Xmit(s, op).0)
  {
    XmitShape(s, op);
    hide Xmit, WithInitial, FinishXmit, SentOk;
    WithInitialCoherent(s, op);
    var l := LoopOf(s, op);
    RunLoopCoherent(l);
    var r := RunLoop(l);
    if op.message.None? && op.trailMd.None? { assert !l.Guard() && r == l; }
    hide RunLoop, LaidOut;
    FinishCoherent(r.s, op);
  }

  lemma EventCoherent(s: Stream, e: Event)
    requires BetweenOps(s) && Possible(s, e)
    ensures BetweenOps(Apply(s, e))
  {
    hide Xmit, TransferData, Enqueue, FailAll, Register;
    match e
    case Send(op) => XmitCoherent(s, op);
    case Recv(op) =>
    case Arrive(m, homaId) =>
    case CancelStream(reason) => FlushCoherent(CancelMark(s));
    case ReadError(reason) =>
  }

  /** Every message that a stream ever sends has a header that agrees with its contents, and the
      messages are numbered without gaps. */
  lemma {:induction false} RunCoherent(s: Stream, es: seq<Event>)
    requires BetweenOps(s) && PossibleRun(s, es)
    ensures BetweenOps(Run(s, es))
    decreases |es|
  {
    hide BetweenOps, Apply, Possible;
    if es != [] {
      EventCoherent(s, es[0]);
      RunCoherent(Apply(s, es[0]), es[1..]);
    }
  }

  // ------------------------------------------------ cancellation

  lemma {:induction false} LoopSilent(l: Loop)
    requires l.s.cancelled
    ensures RunLoop(l).s.cancelled && RunLoop(l).s.tx.sent == l.s.tx.sent
    decreases |l.trail|, l.Left(), |l.data|, Pending(l.s.tx)
  {
    if l.Guard() && Step(l) != l {
      StepProgress(l);
      LoopSilent(Step(l));
    }
  }

  lemma EventSilent(s: Stream, e: Event)
    requires s.cancelled
    ensures Apply(s, e).cancelled && Apply(s, e).tx.sent == s.tx.sent
  {
    hide TransferData, Enqueue, FailAll, Register;
    if e.Send? {
      var op := e.send;
      XmitShape(s, op);
      LoopSilent(LoopOf(s, op));
      hide Xmit, RunLoop, TrailBytes;
    }
  }

  /** Once a stream is cancelled it stays so, and sends nothing but dummy responses. */
  lemma {:induction false} SilentAfterCancel(s: Stream, es: seq<Event>)
    requires s.cancelled
    ensures Run(s, es).cancelled && Run(s, es).tx.sent == s.tx.sent
    decreases |es|
  {
    hide Apply;
    if es != [] {
      EventSilent(s, es[0]);
      SilentAfterCancel(Apply(s, es[0]), es[1..]);
    }
  }

  function Cancels(ms: seq<HomaMessage>): nat {
    if ms == [] then 0
    else Cancels(ms[..|ms| - 1]) + if ms[|ms| - 1].header.flags.cancelled then 1 else 0
  }

  /** No cancel message has been sent or started by a stream that is not cancelled. */
  predicate CancelOk(s: Stream) {
    Cancels(s.tx.sent) <= 1 && (!s.cancelled ==> Cancels(s.tx.sent) == 0 && !s.tx.hdr.flags.cancelled)
  }

  lemma FlushCancels(s: Stream)
    ensures Cancels(Flush(s).tx.sent) <= Cancels(s.tx.sent) + 1 && Flush(s).cancelled == s.cancelled
    ensures CancelOk(s) && !s.cancelled ==> CancelOk(Flush(s))
  {
    var m := Outgoing(s.tx);
    assert (s.tx.sent + [m])[..|s.tx.sent|] == s.tx.sent;
  }

  lemma FlushIfFullCancels(l: Loop)
    requires !l.s.cancelled && CancelOk(l.s)
    ensures CancelOk(FlushIfFull(l).s) && !FlushIfFull(l).s.cancelled
  {
    FlushCancels(l.s);
    hide Flush, CancelOk;
  }

  lemma RestOfStepCancels(l: Loop)
    requires !l.s.cancelled && CancelOk(l.s)
    ensures CancelOk(TakeData(WriteTrailers(l)).s) && !TakeData(WriteTrailers(l)).s.cancelled
  {}

  lemma {:induction false} LoopCancels(l: Loop)
    requires !l.s.cancelled && CancelOk(l.s)
    ensures CancelOk(RunLoop(l).s) && !RunLoop(l).s.cancelled
    decreases |l.trail|, l.Left(), |l.data|, Pending(l.s.tx)
  {
    hide CancelOk, FlushIfFull, WriteTrailers, TakeData;
    if l.Guard() && Step(l) != l {
      StepProgress(l);
      FlushIfFullCancels(l);
      RestOfStepCancels(FlushIfFull(l));
      LoopCancels(Step(l));
    }
  }

  lemma WithInitialCancels(s: Stream, op: SendOp)
    requires !s.cancelled && CancelOk(s)
    ensures CancelOk(WithInitial(s, op)) && !WithInitial(s, op).cancelled
  {
    FlushCancels(s);
    hide Flush;
  }

  lemma FinishCancels(s: Stream, op: SendOp)
    requires !s.cancelled && CancelOk(s)
    ensures CancelOk(FinishXmit(s, op))
  {
    FlushCancels(SetFinalFlags(s, op));
    hide Flush, TransferData;
  }

  lemma XmitCancels(s: Stream, op: SendOp)
    requires !s.cancelled && CancelOk(s)
    ensures CancelOk(Xmit(s, op).0)
  {
    XmitShape(s, op);
    hide Xmit, WithInitial, RunLoop, FinishXmit;
    WithInitialCancels(s, op);
    LoopCancels(LoopOf(s, op));
    FinishCancels(RunLoop(LoopOf(s, op)).s, op);
  }

  lemma EventCancels(s: Stream, e: Event)
    requires !s.cancelled && CancelOk(s)
    ensures CancelOk(Apply(s, e))
  {
    hide Xmit, Flush, TransferData, Enqueue, FailAll, Register;
    match e
    case Send(op) => XmitCancels(s, op);
    case Recv(op) =>
    case Arrive(m, homaId) =>
    case CancelStream(reason) => FlushCancels(CancelMark(s));
    case ReadError(reason) =>
  }

  /** At most one cancel message goes out per stream. */
  lemma {:induction false} OneCancelMessage(s: Stream, es: seq<Event>)
    requires CancelOk(s)
    ensures CancelOk(Run(s, es))
    decreases |es|
  {
    if s.cancelled {
      SilentAfterCancel(s, es);
    } else if es != [] {
      EventCancels(s, es[0]);
      OneCancelMessage(Apply(s, es[0]), es[1..]);
      hide Apply, CancelOk;
    }
  }

  // ------------------------------------------------ callbacks

  function Times(c: Completion, cb: nat): nat { if c.cb == cb then 1 else 0 }

  /** How often a callback has been completed. */
  function Completed(done: seq<Completion>, cb: nat): nat {
    if done == [] then 0 else Completed(done[..|done| - 1], cb) + Times(done[|done| - 1], cb)
  }

  function IsId(o: Option<nat>, cb: nat): nat { if o == Some(cb) then 1 else 0 }

  function IsInitId(o: Option<InitMdCallback>, cb: nat): nat { if o.Some? && o.value.cb == cb then 1 else 0 }

  /** How often a callback has been completed or is waiting. */
  function Known(rx: Rx, cb: nat): nat {
    Completed(rx.done, cb) + IsInitId(rx.initMdCb, cb) + IsId(rx.messageCb, cb) + IsId(rx.trailMdCb, cb)
  }

  function RegisteredBy(e: Event, cb: nat): nat {
    if e.Recv? then IsInitId(e.recv.initMd, cb) + IsId(e.recv.message, cb) + IsId(e.recv.trailMd, cb) else 0
  }

  /** How often a callback is registered during a run. */
  function Registered(es: seq<Event>, cb: nat): nat {
    if es == [] then 0 else RegisteredBy(es[0], cb) + Registered(es[1..], cb)
  }

  /** Whether a new registration replaces a callback that is still waiting; gRPC never does this. */
  function ReplacedBy(rx: Rx, op: RecvOp, cb: nat): nat {
    (if op.initMd.Some? then IsInitId(rx.initMdCb, cb) else 0) +
    (if op.message.Some? then IsId(rx.messageCb, cb) else 0) +
    (if op.trailMd.Some? then IsId(rx.trailMdCb, cb) else 0)
  }

  function Replaced(s: Stream, es: seq<Event>, cb: nat): nat
    decreases |es|
  {
    if es == [] then 0
    else (if es[0].Recv? then ReplacedBy(s.rx, es[0].recv, cb) else 0) + Replaced(Apply(s, es[0]), es[1..], cb)
  }

  lemma CompletedOne(done: seq<Completion>, c: Completion, cb: nat)
    ensures Completed(done + [c], cb) == Completed(done, cb) + Times(c, cb)
  {
    assert (done + [c])[..|done|] == done;
  }

  lemma OfferInitMdKnown(rx: Rx, cb: nat)
    requires |rx.incoming| > 0
    ensures Known(OfferInitMd(rx), cb) == Known(rx, cb)
  {
    if GivesInitMd(rx, rx.incoming[0]) { CompletedOne(rx.done, OfferInitMd(rx).done[|rx.done|], cb); }
  }

  lemma OfferBodyKnown(rx: Rx, cb: nat)
    requires |rx.incoming| > 0
    ensures Known(OfferBody(rx), cb) == Known(rx, cb)
  {
    if GivesMessage(rx, rx.incoming[0]) { CompletedOne(rx.done, OfferBody(rx).done[|rx.done|], cb); }
  }

  lemma OfferTrailMdKnown(rx: Rx, cb: nat)
    requires |rx.incoming| > 0
    ensures Known(OfferTrailMd(rx), cb) == Known(rx, cb)
  {
    if GivesTrailMd(rx, rx.incoming[0]) { CompletedOne(rx.done, OfferTrailMd(rx).done[|rx.done|], cb); }
  }

  lemma OfferKnown(rx: Rx, cb: nat)
    requires |rx.incoming| > 0
    ensures Known(Offer(rx), cb) == Known(rx, cb)
  {
    OfferInSteps(rx);
    OfferInitMdKnown(rx, cb);
    OfferBodyKnown(OfferInitMd(rx), cb);
    OfferTrailMdKnown(OfferBody(OfferInitMd(rx)), cb);
    hide OfferInitMd, OfferBody, OfferTrailMd, Offer, Known;
  }

  lemma {:induction false} LoopKnown(rx: Rx, cb: nat)
    ensures Known(TransferLoop(rx), cb) == Known(rx, cb)
    decreases |rx.incoming|
  {
    hide Offer;
    if FrontAvailable(rx) {
      OfferKnown(rx, cb);
      if !Held(Offer(rx).incoming[0]) { LoopKnown(Retire(Offer(rx)), cb); }
    }
  }

  lemma TransferKnown(rx: Rx, cb: nat)
    ensures Known(TransferData(rx), cb) == Known(rx, cb)
  {
    LoopKnown(rx, cb);
    var r := TransferLoop(rx);
    if r.messageCb.Some? { CompletedOne(r.done, NoMessage(r.messageCb.value), cb); }
    hide TransferLoop;
  }

  lemma FailKnown(rx: Rx, e: Error, cb: nat)
    ensures Known(FailAll(rx, e), cb) == Known(rx, cb)
  {
    FailInitMdKnown(rx, e, cb);
    FailMessageKnown(FailInitMd(rx, e), e, cb);
    FailTrailMdKnown(FailMessage(FailInitMd(rx, e), e), e, cb);
    hide FailInitMd, FailMessage, FailTrailMd, Known;
  }

  lemma FailInitMdKnown(rx: Rx, e: Error, cb: nat)
    ensures Known(FailInitMd(rx, e), cb) == Known(rx, cb)
  {
    if rx.initMdCb.Some? { CompletedOne(rx.done, Failed(rx.initMdCb.value.cb, e), cb); }
  }

  lemma FailMessageKnown(rx: Rx, e: Error, cb: nat)
    ensures Known(FailMessage(rx, e), cb) == Known(rx, cb)
  {
    if rx.messageCb.Some? { CompletedOne(rx.done, Failed(rx.messageCb.value, e), cb); }
  }

  lemma FailTrailMdKnown(rx: Rx, e: Error, cb: nat)
    ensures Known(FailTrailMd(rx, e), cb) == Known(rx, cb)
  {
    if rx.trailMdCb.Some? { CompletedOne(rx.done, Failed(rx.trailMdCb.value, e), cb); }
  }

  lemma EnqueueKnown(rx: Rx, m: Incoming, cb: nat)
    ensures Known(Enqueue(rx, m), cb) == Known(rx, cb)
  {
    hide TransferData;
    var r := Insert(rx.incoming, m);
    if m.sequence >= rx.nextIncomingSequence && r.Some? { TransferKnown(rx.(incoming := r.value), cb); }
  }

  lemma {:induction false} LoopKeepsRx(l: Loop)
    ensures RunLoop(l).s.rx == l.s.rx && (l.s.error.Some? ==> RunLoop(l).s.error.Some?)
    decreases |l.trail|, l.Left(), |l.data|, Pending(l.s.tx)
  {
    if l.Guard() && Step(l) != l {
      StepProgress(l);
      LoopKeepsRx(Step(l));
    }
  }

  lemma FinishRx(s: Stream, op: SendOp)
    ensures FinishXmit(s, op).rx == RxAfterSending(s.rx, op.trailMd.Some?)
    ensures s.error.Some? ==> FinishXmit(s, op).error.Some?
  {
    hide TransferData;
  }

  /** Sending touches the receive side only when trailers have gone out: that is noted, and a server
      hands over what it has withheld. */
  function RxAfterSending(rx: Rx, trailers: bool): Rx {
    if !trailers then rx
    else if rx.isServer then TransferData(rx.(trailMdSent := true))
    else rx.(trailMdSent := true)
  }

  /** Have trailers gone out with the op? */
  predicate SendsTrailers(s: Stream, op: SendOp) { Xmit(s, op).1.Done? && op.trailMd.Some? }

  lemma XmitRx(s: Stream, op: SendOp)
    ensures Xmit(s, op).0.rx == RxAfterSending(s.rx, SendsTrailers(s, op))
    ensures s.error.Some? ==> Xmit(s, op).0.error.Some?
  {
    XmitShape(s, op);
    hide Xmit, RunLoop, FinishXmit, TransferData, TrailBytes;
    LoopKeepsRx(LoopOf(s, op));
    FinishRx(RunLoop(LoopOf(s, op)).s, op);
    assert WithInitial(s, op).rx == s.rx && (s.error.Some? ==> WithInitial(s, op).error.Some?);
  }

  lemma RegisterKnown(rx: Rx, op: RecvOp, cb: nat)
    ensures Known(Register(rx, op), cb) + ReplacedBy(rx, op, cb) ==
            Known(rx, cb) + IsInitId(op.initMd, cb) + IsId(op.message, cb) + IsId(op.trailMd, cb)
  {
    hide Completed;
    var r := Register(rx, op);
    assert r.done == rx.done && r.initMdCb == (if op.initMd.Some? then op.initMd else rx.initMdCb);
    assert r.messageCb == if op.message.Some? then op.message else rx.messageCb;
    assert r.trailMdCb == if op.trailMd.Some? then op.trailMd else rx.trailMdCb;
    hide Register;
  }

  lemma EventKnown(s: Stream, e: Event, cb: nat)
    ensures Known(Apply(s, e).rx, cb) + (if e.Recv? then ReplacedBy(s.rx, e.recv, cb) else 0) ==
            Known(s.rx, cb) + RegisteredBy(e, cb)
  {
    match e
    case Send(op) =>
      XmitRx(s, op);
      TransferKnown(s.rx.(trailMdSent := true), cb);
      hide Xmit, TransferData;
    case Recv(op) =>
      hide Register, FailAll, TransferData, ReplacedBy, Known;
      RegisterKnown(s.rx, op, cb);
      if s.error.Some? { FailKnown(Register(s.rx, op), s.error.value, cb); }
      TransferKnown(SaveCallbacks(s, op).rx, cb);
    case Arrive(m, homaId) =>
      hide Enqueue, FailAll, Known;
      FailKnown(s.rx, CancelledByPeer, cb);
      EnqueueKnown(s.rx, m, cb);
    case CancelStream(reason) =>
      hide FailAll, Known, Flush;
      assert CancelPeer(s).rx == s.rx by { FlushKeepsRx(CancelMark(s)); }
      FailKnown(s.rx, reason, cb);
    case ReadError(reason) =>
      hide FailAll, Known;
      FailKnown(s.rx, reason, cb);
  }

  lemma FlushKeepsRx(s: Stream)
    ensures Flush(s).rx == s.rx
  {}

  /** Every callback registered is completed once, waiting, or was replaced: none is completed more
      often than it was registered, none is forgotten. */
  lemma {:induction false} CallbacksAccountedFor(s: Stream, es: seq<Event>, cb: nat)
    ensures Known(Run(s, es).rx, cb) + Replaced(s, es, cb) == Known(s.rx, cb) + Registered(es, cb)
    decreases |es|
  {
    hide Apply, Known, ReplacedBy, RegisteredBy;
    if es != [] {
      EventKnown(s, es[0], cb);
      CallbacksAccountedFor(Apply(s, es[0]), es[1..], cb);
    }
  }

  // ------------------------------------------------ errors

  predicate NoCallbacks(rx: Rx) { rx.initMdCb.None? && rx.messageCb.None? && rx.trailMdCb.None? }

  /** An error has been announced: no callback is waiting. */
  predicate Dead(s: Stream) { s.error.Some? && NoCallbacks(s.rx) }

  /** The second log continues the first with failures for one reason. */
  predicate FailedWith(before: seq<Completion>, after: seq<Completion>, e: Error) {
    before <= after && forall i :: |before| <= i < |after| ==> after[i].Failed? && after[i].error == e
  }

  lemma FailedOnly(before: seq<Completion>, after: seq<Completion>, e: Error)
    ensures FailedWith(before, after, e) ==> OnlyFailures(before, after)
    ensures FailedWith(before, before, e)
  {}

  /** The second log continues the first with failures only. */
  predicate OnlyFailures(before: seq<Completion>, after: seq<Completion>) {
    |before| <= |after| && after[..|before|] == before &&
    forall i :: |before| <= i < |after| ==> after[i].Failed?
  }

  lemma {:induction false} DeadLoop(rx: Rx)
    requires NoCallbacks(rx)
    ensures TransferLoop(rx).done == rx.done && NoCallbacks(TransferLoop(rx))
    decreases |rx.incoming|
  {
    if FrontAvailable(rx) {
      assert rx.done + CompletedBy(rx, rx.incoming[0]) == rx.done;
      if !Held(Offer(rx).incoming[0]) { DeadLoop(Retire(Offer(rx))); }
    }
  }

  lemma DeadTransfer(rx: Rx)
    requires NoCallbacks(rx)
    ensures TransferData(rx).done == rx.done && NoCallbacks(TransferData(rx))
  {
    DeadLoop(rx);
    hide TransferLoop;
  }

  predicate SameRole(a: Rx, b: Rx) { a.isServer == b.isServer && a.trailMdSent == b.trailMdSent }

  /** Announcing an error fails everything that waits, and does nothing else to the receive side. */
  lemma FailAllKills(rx: Rx, e: Error)
    ensures var r := FailAll(rx, e);
            NoCallbacks(r) && FailedWith(rx.done, r.done, e) &&
            r.incoming == rx.incoming && r.nextIncomingSequence == rx.nextIncomingSequence &&
            r.messageBody == rx.messageBody && r.eof == rx.eof && SameRole(rx, r)
  {}

  lemma EnqueueDead(rx: Rx, m: Incoming)
    requires NoCallbacks(rx)
    ensures Enqueue(rx, m).done == rx.done && NoCallbacks(Enqueue(rx, m))
  {
    hide TransferData;
    var r := Insert(rx.incoming, m);
    if m.sequence >= rx.nextIncomingSequence && r.Some? { DeadTransfer(rx.(incoming := r.value)); }
  }

  lemma DeadEvent(s: Stream, e: Event)
    requires Dead(s)
    ensures Dead(Apply(s, e)) && FailedWith(s.rx.done, Apply(s, e).rx.done, Apply(s, e).error.value)
  {
    hide OnlyFailures, FailedWith, Xmit, TransferData, FailAll, Enqueue, Flush, Register;
    match e
    case Send(op) =>
      XmitRx(s, op);
      FailedOnly(s.rx.done, s.rx.done, Apply(s, e).error.value);
      DeadTransfer(s.rx.(trailMdSent := true));
    case Recv(op) =>
      hide NoCallbacks;
      RegisterLog(s.rx, op);
      FailAllKills(Register(s.rx, op), s.error.value);
      DeadTransfer(SaveCallbacks(s, op).rx);
    case Arrive(m, homaId) =>
      hide NoCallbacks;
      FailedOnly(s.rx.done, s.rx.done, s.error.value);
      FailAllKills(s.rx, CancelledByPeer);
      EnqueueDead(s.rx, m);
    case CancelStream(reason) =>
      hide NoCallbacks;
      FlushKeepsRx(CancelMark(s));
      FailAllKills(s.rx, reason);
    case ReadError(reason) =>
      hide NoCallbacks;
      FailAllKills(s.rx, reason);
  }

  lemma RegisterLog(rx: Rx, op: RecvOp)
    ensures Register(rx, op).done == rx.done
  {}

  /** Once an error has been announced no callback ever completes with success again, and none waits:
      callbacks registered later fail at once. */
  lemma {:induction false} ErrorsAreSticky(s: Stream, es: seq<Event>)
    requires Dead(s)
    ensures Dead(Run(s, es)) && OnlyFailures(s.rx.done, Run(s, es).rx.done)
    decreases |es|
  {
    hide Apply, Dead;
    if es != [] {
      var n := Apply(s, es[0]);
      StoppedEvent(s, es[0]);
      ErrorsAreSticky(n, es[1..]);
      FailuresCompose(s.rx.done, n.rx.done, Run(s, es).rx.done);
    }
  }

  lemma FailuresCompose(a: seq<Completion>, b: seq<Completion>, c: seq<Completion>)
    requires OnlyFailures(a, b) && OnlyFailures(b, c)
    ensures OnlyFailures(a, c)
  {
    assert c[..|a|] == c[..|b|][..|a|];
    assert forall i :: |a| <= i < |b| ==> c[i] == c[..|b|][i];
  }

  /** The error that an event announces: errors and cancellations of the stream itself, cancellations by
      the peer and, at the next receive op, what has gone wrong in sending. */
  function Announced(s: Stream, e: Event): Option<Error> {
    match e
    case Send(_) => None
    case Recv(_) => s.error
    case Arrive(m, _) => if m.flags.cancelled then Some(CancelledByPeer) else None
    case CancelStream(reason) => Some(reason)
    case ReadError(reason) => Some(reason)
  }

  /** Announcing an error cancels the stream and fails every callback that waits, with this error. */
  lemma ErrorEventsKill(s: Stream, e: Event)
    requires Announced(s, e).Some?
    ensures var r := Apply(s, e);
            Dead(r) && r.cancelled && r.error == Announced(s, e) &&
            FailedWith(s.rx.done, r.rx.done, Announced(s, e).value)
  {
    hide FailAll, Flush, FailedWith, NoCallbacks, Register, TransferData;
    match e
    case CancelStream(reason) =>
      FlushKeepsRx(CancelMark(s));
      FailAllKills(s.rx, reason);
    case ReadError(reason) => FailAllKills(s.rx, reason);
    case Arrive(m, homaId) => FailAllKills(s.rx, CancelledByPeer);
    case Recv(op) =>
      RegisterLog(s.rx, op);
      FailAllKills(Register(s.rx, op), s.error.value);
      DeadTransfer(SaveCallbacks(s, op).rx);
  }

  lemma StoppedEvent(s: Stream, e: Event)
    requires Dead(s) || Announced(s, e).Some?
    ensures Dead(Apply(s, e)) && OnlyFailures(s.rx.done, Apply(s, e).rx.done)
  {
    hide Apply, Announced, FailedWith, OnlyFailures;
    if Announced(s, e).Some? { ErrorEventsKill(s, e); } else { DeadEvent(s, e); }
    FailedOnly(s.rx.done, Apply(s, e).rx.done, Apply(s, e).error.value);
  }

  // ------------------------------------------------ calls that fail

  /** What later sendmsg calls will meet, after n of them. */
  function Later(errors: seq<bool>, n: nat): seq<bool> { if n <= |errors| then errors[n..] else [] }

  /** Does one of the next n calls fail? */
  predicate SomeFail(errors: seq<bool>, n: nat) { exists i :: 0 <= i < n && i < |errors| && errors[i] }

  function Calls(tx: Tx): nat { |tx.sent| + |tx.dummies| }

  /** How many sendmsg calls have been made on the way from one state to another. */
  function Between(a: Tx, b: Tx): nat { if Calls(a) <= Calls(b) then Calls(b) - Calls(a) else 0 }

  predicate NotBefore(a: Tx, b: Tx) { Calls(a) <= Calls(b) }

  lemma BetweenBoth(a: Tx, b: Tx, c: Tx)
    requires NotBefore(a, b) && NotBefore(b, c)
    ensures NotBefore(a, c) && Between(a, c) == Between(a, b) + Between(b, c)
  {}

  /** On the way from one state to another messages have been sent but no dummies, and a failure of any of
      the calls has been recorded in the stream. */
  predicate Noticed(a: Stream, b: Stream) {
    a.tx.dummies == b.tx.dummies && a.tx.streamId == b.tx.streamId &&
    NotBefore(a.tx, b.tx) && AfterCalls(a, b, Between(a.tx, b.tx))
  }

  predicate AfterCalls(a: Stream, b: Stream, n: nat) {
    b.tx.sendErrors == Later(a.tx.sendErrors, n) &&
    b.error == if SomeFail(a.tx.sendErrors, n) then Some(SendFailed) else a.error
  }

  lemma SomeFailBoth(errors: seq<bool>, m: nat, n: nat)
    ensures SomeFail(errors, m + n) <==> SomeFail(errors, m) || SomeFail(Later(errors, m), n)
  {
    var rest := Later(errors, m);
    assert forall i :: 0 <= i < |rest| ==> rest[i] == errors[m + i];
    if SomeFail(errors, m + n) && !SomeFail(errors, m) {
      var i :| 0 <= i < m + n && i < |errors| && errors[i];
      assert rest[i - m];
    }
    if SomeFail(rest, n) {
      var i :| 0 <= i < n && i < |rest| && rest[i];
      assert errors[m + i];
    }
  }

  lemma LaterBoth(errors: seq<bool>, m: nat, n: nat)
    ensures Later(Later(errors, m), n) == Later(errors, m + n)
  {
    if m + n <= |errors| { assert errors[m..][n..] == errors[m + n..]; }
  }

  lemma AfterCallsBoth(a: Stream, b: Stream, c: Stream, m: nat, n: nat)
    requires AfterCalls(a, b, m) && AfterCalls(b, c, n)
    ensures AfterCalls(a, c, m + n)
  {
    SomeFailBoth(a.tx.sendErrors, m, n);
    LaterBoth(a.tx.sendErrors, m, n);
    hide SomeFail, Later;
  }

  lemma NoticedBoth(a: Stream, b: Stream, c: Stream)
    requires Noticed(a, b) && Noticed(b, c)
    ensures Noticed(a, c)
  {
    BetweenBoth(a.tx, b.tx, c.tx);
    AfterCallsBoth(a, b, c, Between(a.tx, b.tx), Between(b.tx, c.tx));
    hide AfterCalls, Between, NotBefore;
  }

  lemma NothingNoticed(a: Stream, b: Stream)
    requires a.error == b.error && a.tx.sendErrors == b.tx.sendErrors && Calls(a.tx) == Calls(b.tx)
    requires a.tx.dummies == b.tx.dummies && a.tx.streamId == b.tx.streamId
    ensures Noticed(a, b)
  {}

  lemma FlushNoticed(s: Stream)
    ensures Noticed(s, Flush(s))
  {
    if NothingToFlush(s) {
      NothingNoticed(s, s);
    } else {
      assert SomeFail(s.tx.sendErrors, 1) <==> NextSendFails(s.tx);
    }
  }

  lemma FlushIfFullNoticed(l: Loop)
    ensures Noticed(l.s, FlushIfFull(l).s)
  {
    FlushNoticed(l.s);
    NothingNoticed(l.s, l.s);
    hide Flush, Noticed;
  }

  lemma RestOfStepNoticed(l: Loop)
    ensures Noticed(l.s, TakeData(WriteTrailers(l)).s)
  {
    hide Noticed;
    NothingNoticed(l.s, TakeData(WriteTrailers(l)).s);
  }

  lemma {:induction false} LoopNoticed(l: Loop)
    ensures Noticed(l.s, RunLoop(l).s)
    decreases |l.trail|, l.Left(), |l.data|, Pending(l.s.tx)
  {
    hide Noticed, FlushIfFull, WriteTrailers, TakeData;
    NothingNoticed(l.s, l.s);
    if l.Guard() && Step(l) != l {
      StepProgress(l);
      FlushIfFullNoticed(l);
      RestOfStepNoticed(FlushIfFull(l));
      NoticedBoth(l.s, FlushIfFull(l).s, Step(l).s);
      LoopNoticed(Step(l));
      NoticedBoth(l.s, Step(l).s, RunLoop(l).s);
    }
  }

  lemma WithInitialNoticed(s: Stream, op: SendOp)
    ensures Noticed(s, WithInitial(s, op))
  {
    hide Noticed, Flush;
    FlushNoticed(s);
    NothingNoticed(s, s);
    var s1 := if s.tx.hdr.initMdBytes != 0 then Flush(s) else s;
    if op.initMd.Some? {
      NothingNoticed(s1, WithInitial(s, op));
      NoticedBoth(s, s1, WithInitial(s, op));
    }
  }

  lemma FinishNoticed(s: Stream, op: SendOp)
    ensures Noticed(s, FinishXmit(s, op))
  {
    hide Noticed, Flush, TransferData;
    var s1 := SetFinalFlags(s, op);
    NothingNoticed(s, s1);
    FlushNoticed(s1);
    NoticedBoth(s, s1, Flush(s1));
    var s2 := if op.message.Some? || op.trailMd.Some? then Flush(s1) else s1;
    NothingNoticed(s2, FinishXmit(s, op));
    NoticedBoth(s, s2, FinishXmit(s, op));
  }

  /** The error of a stream after an op: the op was rejected, or one of its sendmsg calls has failed, or
      it is what it was. */
  lemma SendFailuresAreNoticed(s: Stream, op: SendOp)
    ensures var r, outcome := Xmit(s, op).0, Xmit(s, op).1;
            if outcome.Rejected? then r.error == Some(TooMuchMetadata) && r == WithInitial(s, op).(error := r.error)
            else Noticed(s, r)
  {
    hide Xmit, WithInitial, RunLoop, FinishXmit, Noticed, TrailBytes;
    XmitShape(s, op);
    WithInitialNoticed(s, op);
    var l := LoopOf(s, op);
    LoopNoticed(l);
    NoticedBoth(s, l.s, RunLoop(l).s);
    FinishNoticed(RunLoop(l).s, op);
    NoticedBoth(s, RunLoop(l).s, FinishXmit(RunLoop(l).s, op));
  }

  /** An op is rejected, one of its sendmsg calls fails, or an error is announced. */
  predicate GoesWrong(s: Stream, e: Event) {
    Announced(s, e).Some? ||
    (e.Send? && (Xmit(s, e.send).1.Rejected? || SomeFail(s.tx.sendErrors, Between(s.tx, Apply(s, e).tx))))
  }

  predicate SomethingWrong(s: Stream, es: seq<Event>)
    decreases |es|
  {
    es != [] && (GoesWrong(s, es[0]) || SomethingWrong(Apply(s, es[0]), es[1..]))
  }

  lemma EventWrong(s: Stream, e: Event)
    ensures Apply(s, e).error.Some? <==> s.error.Some? || GoesWrong(s, e)
  {
    hide Xmit, WithInitial, TransferData, Enqueue, FailAll, Flush, Register, SomeFail, Between, Announced, Dead;
    if e.Send? {
      SendFailuresAreNoticed(s, e.send);
      assert Announced(s, e).None? by { SendAnnouncesNothing(s, e); }
    } else if Announced(s, e).Some? {
      ErrorEventsKill(s, e);
    } else {
      NothingAnnounced(s, e);
    }
  }

  lemma SendAnnouncesNothing(s: Stream, e: Event)
    requires e.Send?
    ensures Announced(s, e).None?
  {}

  lemma NothingAnnounced(s: Stream, e: Event)
    requires !e.Send? && Announced(s, e).None?
    ensures Apply(s, e).error == s.error
  {
    hide TransferData, Enqueue, FailAll, Flush, Register, NoteRequest;
  }

  /** At every point of every run, a stream has an error exactly if something has gone wrong. */
  lemma {:induction false} ErrorExactly(s: Stream, es: seq<Event>)
    ensures Run(s, es).error.Some? <==> s.error.Some? || SomethingWrong(s, es)
    decreases |es|
  {
    hide Apply, GoesWrong;
    if es != [] {
      EventWrong(s, es[0]);
      ErrorExactly(Apply(s, es[0]), es[1..]);
    }
  }

  // ------------------------------------------------ dummy responses

  /** A message of a header only, which says that it is a dummy and nothing else. */
  predicate IsDummy(m: HomaMessage, streamId: nat) {
    m.route.Reply? && m.payload == [] && m.header.streamId == streamId && m.header.sequenceNum == 0 &&
    m.header.MessageLength() == HEADER_LENGTH && m.header.flags == NO_FLAGS.(emptyResponse := true)
  }

  /** What the calls made on the way from one transmit state to another have met; the dummies among them. */
  predicate Called(a: Tx, b: Tx) {
    a.streamId == b.streamId && a.dummies <= b.dummies && NotBefore(a, b) &&
    b.sendErrors == Later(a.sendErrors, Between(a, b)) &&
    forall i :: |a.dummies| <= i < |b.dummies| ==> IsDummy(b.dummies[i], b.streamId)
  }

  lemma NoticedCalled(a: Stream, b: Stream)
    requires Noticed(a, b)
    ensures Called(a.tx, b.tx)
  {
    hide SomeFail, Later, Calls;
  }

  lemma CalledBoth(a: Tx, b: Tx, c: Tx)
    requires Called(a, b) && Called(b, c)
    ensures Called(a, c)
  {
    BetweenBoth(a, b, c);
    LaterBoth(a.sendErrors, Between(a, b), Between(b, c));
    hide Later, IsDummy, Between, NotBefore;
    forall i | |a.dummies| <= i < |c.dummies| ensures IsDummy(c.dummies[i], c.streamId) {
      if i < |b.dummies| { assert c.dummies[i] == b.dummies[i]; }
    }
  }

  lemma NoteCalled(tx: Tx, m: Incoming, homaId: nat)
    ensures Called(tx, NoteRequest(tx, m, homaId))
  {
    assert Later(tx.sendErrors, 0) == tx.sendErrors;
  }

  lemma SameCalled(a: Tx, b: Tx)
    requires a.sendErrors == b.sendErrors && a.dummies == b.dummies && a.sent == b.sent && a.streamId == b.streamId
    ensures Called(a, b)
  {}

  lemma SendCalled(s: Stream, op: SendOp)
    ensures Called(s.tx, Xmit(s, op).0.tx)
  {
    hide Xmit, WithInitial, Noticed, Called;
    SendFailuresAreNoticed(s, op);
    WithInitialNoticed(s, op);
    NoticedCalled(s, if Xmit(s, op).1.Rejected? then WithInitial(s, op) else Xmit(s, op).0);
  }

  lemma EventCalled(s: Stream, e: Event)
    ensures Called(s.tx, Apply(s, e).tx)
  {
    hide Called, Xmit, Flush, TransferData, Enqueue, FailAll, Register, NoteRequest;
    SameCalled(s.tx, s.tx);
    match e
    case Send(op) => SendCalled(s, op);
    case Recv(op) =>
    case Arrive(m, homaId) => NoteCalled(s.tx, m, homaId);
    case CancelStream(reason) =>
      FlushNoticed(CancelMark(s));
      NoticedCalled(CancelMark(s), Flush(CancelMark(s)));
      SameCalled(s.tx, CancelMark(s).tx);
      CalledBoth(s.tx, CancelMark(s).tx, Flush(CancelMark(s)).tx);
      hide Noticed;
    case ReadError(reason) =>
  }

  /** Over every run, each message and each dummy takes one call, and a dummy is nothing but a header that says
      so. */
  lemma {:induction false} RunCalled(s: Stream, es: seq<Event>)
    ensures Called(s.tx, Run(s, es).tx)
    decreases |es|
  {
    hide Apply, Called;
    if es == [] {
      SameCalled(s.tx, s.tx);
    } else {
      EventCalled(s, es[0]);
      RunCalled(Apply(s, es[0]), es[1..]);
      CalledBoth(s.tx, Apply(s, es[0]).tx, Run(s, es).tx);
    }
  }

  // ------------------------------------------------ the queue, over runs

  lemma EnqueueKeepsQueue(rx: Rx, m: Incoming)
    requires QueueOk(rx)
    ensures QueueOk(Enqueue(rx, m))
  {
    hide QueueOk, TransferData;
    var r := Insert(rx.incoming, m);
    if m.sequence >= rx.nextIncomingSequence && r.Some? {
      InsertKeepsOrder(rx, m);
      TransferKeepsQueue(rx.(incoming := r.value));
    }
  }

  lemma FailKeepsQueue(rx: Rx, e: Error)
    requires QueueOk(rx)
    ensures QueueOk(FailAll(rx, e))
  {}

  lemma RegisterKeepsQueue(rx: Rx, op: RecvOp)
    requires QueueOk(rx)
    ensures QueueOk(Register(rx, op))
  {}

  lemma EventKeepsQueue(s: Stream, e: Event)
    requires QueueOk(s.rx)
    ensures QueueOk(Apply(s, e).rx)
  {
    match e
    case Send(op) =>
      hide Xmit, TransferData;
      XmitRx(s, op);
      TransferKeepsQueue(s.rx.(trailMdSent := true));
    case Recv(op) =>
      hide TransferData, QueueOk, Register, FailAll;
      RegisterKeepsQueue(s.rx, op);
      if s.error.Some? { FailKeepsQueue(Register(s.rx, op), s.error.value); }
      TransferKeepsQueue(SaveCallbacks(s, op).rx);
    case Arrive(m, homaId) =>
      hide Enqueue, FailAll, QueueOk;
      EnqueueKeepsQueue(s.rx, m);
      FailKeepsQueue(s.rx, CancelledByPeer);
    case CancelStream(reason) =>
      hide Flush, FailAll, QueueOk;
      FlushKeepsRx(CancelMark(s));
      FailKeepsQueue(s.rx, reason);
    case ReadError(reason) =>
      hide FailAll, QueueOk;
      FailKeepsQueue(s.rx, reason);
  }

  /** In every run the waiting messages stay in order, above everything that has been retired. */
  lemma {:induction false} QueueOverRuns(s: Stream, es: seq<Event>)
    requires QueueOk(s.rx)
    ensures QueueOk(Run(s, es).rx)
    decreases |es|
  {
    hide Apply, QueueOk;
    if es != [] {
      EventKeepsQueue(s, es[0]);
      QueueOverRuns(Apply(s, es[0]), es[1..]);
    }
  }

  // ------------------------------------------------ nothing is held back, over runs

  lemma EnqueueSettled(rx: Rx, m: Incoming)
    requires Settled(rx)
    ensures Settled(Enqueue(rx, m))
  {
    hide Settled, TransferData;
    var q := Insert(rx.incoming, m);
    if q.Some? { MaximalProgress(rx.(incoming := q.value)); }
  }

  lemma FailSettled(rx: Rx, e: Error)
    requires Settled(rx)
    ensures Settled(FailAll(rx, e))
  {}

  lemma EventSettled(s: Stream, e: Event)
    requires Settled(s.rx)
    ensures Settled(Apply(s, e).rx)
  {
    hide TransferData, Xmit, Flush, FailAll, Enqueue, Register;
    match e
    case Send(op) =>
      XmitRx(s, op);
      MaximalProgress(s.rx.(trailMdSent := true));
    case Recv(op) =>
      hide Settled;
      MaximalProgress(SaveCallbacks(s, op).rx);
    case Arrive(m, homaId) =>
      hide Settled;
      EnqueueSettled(s.rx, m);
      FailSettled(s.rx, CancelledByPeer);
    case CancelStream(reason) =>
      hide Settled;
      FlushKeepsRx(CancelMark(s));
      FailSettled(s.rx, reason);
    case ReadError(reason) =>
      hide Settled;
      FailSettled(s.rx, reason);
  }

  /** In every reachable state of a stream, the front message waits only for a reason. */
  lemma {:induction false} SettledOverRuns(s: Stream, es: seq<Event>)
    requires Settled(s.rx)
    ensures Settled(Run(s, es).rx)
    decreases |es|
  {
    hide Apply, Settled;
    if es != [] {
      EventSettled(s, es[0]);
      SettledOverRuns(Apply(s, es[0]), es[1..]);
    }
  }

  // ------------------------------------------------ whether the stream's own trailers are out

  lemma {:induction false} LoopRole(rx: Rx)
    ensures SameRole(rx, TransferLoop(rx))
    decreases |rx.incoming|
  {
    hide Remains, CompletedBy;
    if FrontAvailable(rx) {
      if !Held(Offer(rx).incoming[0]) { LoopRole(Retire(Offer(rx))); }
    }
  }

  lemma TransferRole(rx: Rx)
    ensures SameRole(rx, TransferData(rx))
  {
    LoopRole(rx);
    hide TransferLoop;
  }

  lemma EnqueueRole(rx: Rx, m: Incoming)
    ensures SameRole(rx, Enqueue(rx, m))
  {
    hide TransferData;
    var q := Insert(rx.incoming, m);
    if q.Some? { TransferRole(rx.(incoming := q.value)); }
  }

  lemma RegisterRole(rx: Rx, op: RecvOp)
    ensures SameRole(rx, Register(rx, op))
  {}

  predicate TrailersGoOut(s: Stream, e: Event) { e.Send? && SendsTrailers(s, e.send) }

  lemma EventTrailers(s: Stream, e: Event)
    ensures var r := Apply(s, e).rx;
            r.isServer == s.rx.isServer && r.trailMdSent == (s.rx.trailMdSent || TrailersGoOut(s, e))
  {
    hide TransferData, Xmit, Flush, FailAll, Enqueue, Register, SendsTrailers;
    match e
    case Send(op) =>
      XmitRx(s, op);
      TransferRole(s.rx.(trailMdSent := true));
    case Recv(op) =>
      RegisterRole(s.rx, op);
      if s.error.Some? { FailAllKills(Register(s.rx, op), s.error.value); }
      TransferRole(SaveCallbacks(s, op).rx);
    case Arrive(m, homaId) =>
      EnqueueRole(s.rx, m);
      FailAllKills(s.rx, CancelledByPeer);
    case CancelStream(reason) =>
      FlushKeepsRx(CancelMark(s));
      FailAllKills(s.rx, reason);
    case ReadError(reason) => FailAllKills(s.rx, reason);
  }

  /** Some op of the run was to send trailers and was completed. */
  predicate SomeTrailers(s: Stream, es: seq<Event>)
    decreases |es|
  {
    es != [] && (TrailersGoOut(s, es[0]) || SomeTrailers(Apply(s, es[0]), es[1..]))
  }

  /** At every point of every run, the stream takes its trailers to be out exactly if an op that was to
      send them has been completed. */
  lemma {:induction false} TrailersSentExactly(s: Stream, es: seq<Event>)
    ensures var r := Run(s, es).rx;
            r.isServer == s.rx.isServer && r.trailMdSent == (s.rx.trailMdSent || SomeTrailers(s, es))
    decreases |es|
  {
    hide Apply, TrailersGoOut;
    if es != [] {
      EventTrailers(s, es[0]);
      TrailersSentExactly(Apply(s, es[0]), es[1..]);
    }
  }

  /** Trailers that have arrived in order never wait for a callback that is there, except on a server no op
      of which has sent trailers yet. */
  lemma TrailersWaitForReason(s: Stream, es: seq<Event>)
    requires Settled(s.rx)
    ensures var r := Run(s, es).rx;
            FrontAvailable(r) && r.incoming[0].flags.trailMdPresent && r.trailMdCb.Some? ==>
              r.isServer && !s.rx.trailMdSent && !SomeTrailers(s, es)
  {
    hide Run, SomeTrailers;
    SettledOverRuns(s, es);
    TrailersSentExactly(s, es);
  }

  // ------------------------------------------------ what is said about trailers

  /** A server's gRPC has got trailers only if its own are out, and gRPC is told with the initial metadata
      that trailers are available only if they have been seen. */
  predicate Honest(rx: Rx) { forall i :: 0 <= i < |rx.done| ==> HonestOne(rx, rx.done[i]) }

  predicate HonestOne(rx: Rx, c: Completion) {
    (c.TrailMdReady? ==> !rx.isServer || rx.trailMdSent) && (c.InitMdReady? && c.trailMdAvail ==> rx.eof)
  }

  /** What can only grow. */
  predicate NoLess(a: Rx, b: Rx) {
    a.isServer == b.isServer && (a.trailMdSent ==> b.trailMdSent) && (a.eof ==> b.eof)
  }

  lemma StaysHonest(a: Rx, b: Rx)
    requires Honest(a) && NoLess(a, b) && a.done <= b.done
    requires forall i :: |a.done| <= i < |b.done| ==> HonestOne(b, b.done[i])
    ensures Honest(b)
  {
    forall i | 0 <= i < |b.done| ensures HonestOne(b, b.done[i]) {
      if i < |a.done| { assert HonestOne(a, a.done[i]); }
    }
  }

  lemma OfferHonest(rx: Rx)
    requires Honest(rx) && |rx.incoming| > 0
    ensures Honest(Offer(rx)) && NoLess(rx, Offer(rx))
  {
    var o, c := Offer(rx), CompletedBy(rx, rx.incoming[0]);
    assert forall i :: 0 <= i < |c| ==> HonestOne(o, c[i]);
    hide Remains, CompletedBy, Honest, HonestOne;
    assert forall i :: |rx.done| <= i < |o.done| ==> o.done[i] == c[i - |rx.done|];
    StaysHonest(rx, o);
  }

  lemma {:induction false} LoopHonest(rx: Rx)
    requires Honest(rx)
    ensures Honest(TransferLoop(rx)) && NoLess(rx, TransferLoop(rx))
    decreases |rx.incoming|
  {
    hide Offer, HonestOne;
    if FrontAvailable(rx) {
      OfferHonest(rx);
      if !Held(Offer(rx).incoming[0]) {
        StaysHonest(Offer(rx), Retire(Offer(rx)));
        LoopHonest(Retire(Offer(rx)));
      }
    }
  }

  lemma TransferHonest(rx: Rx)
    requires Honest(rx)
    ensures Honest(TransferData(rx)) && NoLess(rx, TransferData(rx))
  {
    LoopHonest(rx);
    hide TransferLoop, Honest;
    StaysHonest(TransferLoop(rx), TransferData(rx));
  }

  lemma FailHonest(rx: Rx, e: Error)
    requires Honest(rx)
    ensures Honest(FailAll(rx, e)) && NoLess(rx, FailAll(rx, e))
  {
    FailAllKills(rx, e);
    assert NoLess(rx, FailAll(rx, e));
    hide FailAll, Honest;
    StaysHonest(rx, FailAll(rx, e));
  }

  lemma RegisterHonest(rx: Rx, op: RecvOp)
    requires Honest(rx)
    ensures Honest(Register(rx, op)) && NoLess(rx, Register(rx, op))
  {
    var r := Register(rx, op);
    assert r.done == rx.done && NoLess(rx, r);
    hide Register, Honest;
    StaysHonest(rx, r);
  }

  lemma EnqueueHonest(rx: Rx, m: Incoming)
    requires Honest(rx)
    ensures Honest(Enqueue(rx, m)) && NoLess(rx, Enqueue(rx, m))
  {
    hide TransferData, Honest;
    var q := Insert(rx.incoming, m);
    if q.Some? {
      StaysHonest(rx, rx.(incoming := q.value));
      TransferHonest(rx.(incoming := q.value));
    }
  }

  lemma EventHonest(s: Stream, e: Event)
    requires Honest(s.rx)
    ensures Honest(Apply(s, e).rx)
  {
    hide TransferData, Xmit, Flush, FailAll, Enqueue, Register, Honest;
    match e
    case Send(op) =>
      XmitRx(s, op);
      StaysHonest(s.rx, s.rx.(trailMdSent := true));
      TransferHonest(s.rx.(trailMdSent := true));
    case Recv(op) =>
      RegisterHonest(s.rx, op);
      if s.error.Some? { FailHonest(Register(s.rx, op), s.error.value); }
      TransferHonest(SaveCallbacks(s, op).rx);
    case Arrive(m, homaId) =>
      EnqueueHonest(s.rx, m);
      FailHonest(s.rx, CancelledByPeer);
    case CancelStream(reason) =>
      FlushKeepsRx(CancelMark(s));
      FailHonest(s.rx, reason);
    case ReadError(reason) => FailHonest(s.rx, reason);
  }

  lemma {:induction false} LoopExtends(rx: Rx)
    ensures rx.done <= TransferLoop(rx).done
    decreases |rx.incoming|
  {
    hide Remains, CompletedBy;
    if FrontAvailable(rx) {
      if !Held(Offer(rx).incoming[0]) { LoopExtends(Retire(Offer(rx))); }
    }
  }

  /** Initial metadata in the front message goes to the callback that waits for it, before anything else is
      handed over. If gRPC wants to know, it is told whether trailers have come with it. */
  lemma InitMdFirst(rx: Rx)
    requires FrontAvailable(rx) && GivesInitMd(rx, rx.incoming[0])
    ensures var r, n, m := TransferData(rx), |rx.done|, rx.incoming[0];
            n < |r.done| && r.initMdCb.None? &&
            r.done[n] == InitMdReady(rx.initMdCb.value.cb, ParseMetadata(InitMd(m)),
                                     rx.initMdCb.value.wantsTrailMdAvail && m.flags.trailMdPresent)
  {
    hide ParseMetadata, Part;
    var o := Offer(rx);
    assert o.done[|rx.done|] == CompletedBy(rx, rx.incoming[0])[0];
    assert o.initMdCb.None?;
    hide Offer, CompletedBy;
    LoopExtends(Retire(o));
    LoopNoInitMd(Retire(o));
  }

  lemma {:induction false} LoopNoInitMd(rx: Rx)
    requires rx.initMdCb.None?
    ensures TransferLoop(rx).initMdCb.None?
    decreases |rx.incoming|
  {
    if FrontAvailable(rx) {
      if !Held(Offer(rx).incoming[0]) { LoopNoInitMd(Retire(Offer(rx))); }
    }
  }

  /** In every run a server hands trailers to gRPC only after sending its own, and no stream announces
      trailers that it has not seen. */
  lemma {:induction false} TrailersAreWithheld(s: Stream, es: seq<Event>)
    requires Honest(s.rx)
    ensures Honest(Run(s, es).rx)
    decreases |es|
  {
    hide Apply, Honest;
    if es != [] {
      EventHonest(s, es[0]);
      TrailersAreWithheld(Apply(s, es[0]), es[1..]);
    }
  }

  /** All that a new stream ever sends carries its id, and numbers or the flag of dummies as it should. */
  lemma NewStreamSends(isServer: bool, streamId: nat, max: nat, errors: seq<bool>, es: seq<Event>)
    requires PossibleRun(NewStream(isServer, streamId, max, errors), es)
    ensures var tx := Run(NewStream(isServer, streamId, max, errors), es).tx;
            (forall i :: 0 <= i < |tx.sent| ==> Coherent(tx.sent[i], streamId, i + 1)) &&
            (forall i :: 0 <= i < |tx.dummies| ==> IsDummy(tx.dummies[i], streamId)) &&
            tx.sendErrors == Later(errors, |tx.sent| + |tx.dummies|)
  {
    hide Run, Coherent, IsDummy, Later;
    var s := NewStream(isServer, streamId, max, errors);
    NewStreamOk(isServer, streamId, max, errors);
    RunCoherent(s, es);
    RunCalled(s, es);
    assert s.tx.streamId == streamId && Calls(s.tx) == 0 && s.tx.sendErrors == errors;
    hide NewStream;
  }

  /** A new stream has no error before something goes wrong. */
  lemma NewStreamErrors(isServer: bool, streamId: nat, max: nat, errors: seq<bool>, es: seq<Event>)
    ensures var s := NewStream(isServer, streamId, max, errors);
            Run(s, es).error.Some? <==> SomethingWrong(s, es)
  {
    hide Run, SomethingWrong;
    ErrorExactly(NewStream(isServer, streamId, max, errors), es);
  }

  /** A new server, whatever happens to it, hands over no trailers before it has completed an op with its own;
      a new client never lets trailers at the front wait beside a callback for them. */
  lemma NewStreamTrailers(isServer: bool, streamId: nat, max: nat, errors: seq<bool>, es: seq<Event>)
    ensures var s := NewStream(isServer, streamId, max, errors);
            var r := Run(s, es).rx;
            (isServer && !SomeTrailers(s, es) ==> forall i :: 0 <= i < |r.done| ==> !r.done[i].TrailMdReady?) &&
            (!isServer && FrontAvailable(r) && r.incoming[0].flags.trailMdPresent ==> r.trailMdCb.None?)
  {
    hide Run, SomeTrailers;
    var s := NewStream(isServer, streamId, max, errors);
    NewStreamOk(isServer, streamId, max, errors);
    TrailersSentExactly(s, es);
    TrailersWaitForReason(s, es);
    TrailersAreWithheld(s, es);
    var r := Run(s, es).rx;
    assert forall i :: 0 <= i < |r.done| ==> HonestOne(r, r.done[i]);
  }

  /** The peer is told once: one message with the cancel flag goes out, with what was pending, and the stream
      is silent from then on. */
  lemma PeerIsToldOnce(s: Stream)
    ensures var r := CancelPeer(s);
            r.cancelled && r.rx == s.rx && CancelPeer(r) == r &&
            |r.tx.sent| == |s.tx.sent| + (if s.cancelled then 0 else 1) &&
            (!s.cancelled ==> var m := r.tx.sent[|s.tx.sent|];
                              m.header.flags.cancelled && m.payload == s.tx.payload &&
                              m.header.MessageLength() == s.tx.hdr.MessageLength())
  {}

  /** A new stream satisfies everything that the lemmas on runs start from. */
  lemma NewStreamOk(isServer: bool, streamId: nat, max: nat, errors: seq<bool>)
    ensures var s := NewStream(isServer, streamId, max, errors);
            BetweenOps(s) && CancelOk(s) && QueueOk(s.rx) && Settled(s.rx) && Honest(s.rx) &&
            forall n: nat :: Accounted(s.tx, n) == 0 && Known(s.rx, n) == 0
  {}
}
