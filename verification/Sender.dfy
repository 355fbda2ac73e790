/** Whole send ops: when xmit rejects an op, when it never returns, and what it sends otherwise. */
module Sender {
  import opened Basics
  import opened Wire
  import opened StreamModel
  import opened Fragmentation

  /** Between ops, a stream that is not cancelled holds back at most the initial metadata. */
  predicate Clear(s: Stream) {
    var h := s.tx.hdr;
    && !s.cancelled
    && Room(s.tx) > 0
    && h == Header(s.tx.streamId, h.sequenceNum, |s.tx.payload|, 0, 0,
                   NO_FLAGS.(initMdPresent := h.flags.initMdPresent))
    && s.tx.nextXmitSequence == h.sequenceNum + 1
    && (s.tx.payload != [] ==> h.flags.initMdPresent)
  }

  /** What is held back fits in a message, as it does unless an op with too much metadata was rejected. */
  predicate Ready(s: Stream) { Clear(s) && |s.tx.payload| <= Room(s.tx) }

  predicate Sends(op: SendOp) { op.message.Some? || op.trailMd.Some? }

  function Message(op: SendOp): Bytes { if op.message.Some? then Concat(op.message.value) else [] }

  /** Does the metadata of the op exceed a message? */
  predicate TooMuch(s: Stream, op: SendOp) {
    (op.initMd.Some? && |EncodeMetadata(op.initMd.value)| > Room(s.tx)) || |TrailBytes(op)| > Room(s.tx)
  }

  /** The bytes that go out ahead of the trailers: waiting initial metadata and the message. */
  function Ahead(s: Stream, op: SendOp): nat { |WithInitial(s, op).tx.payload| + |Message(op)| }

  /** Initial metadata waits alone; any that was already waiting goes out first. */
  lemma WithInitialReady(s: Stream, op: SendOp)
    requires Clear(s)
    ensures var r := WithInitial(s, op);
            (op.initMd.Some? ==> r.tx.payload == EncodeMetadata(op.initMd.value) && r.tx.hdr.flags.initMdPresent) &&
            Clear(r) && Room(r.tx) == Room(s.tx) && r.rx == s.rx &&
            (op.initMd.None? || s.tx.payload == [] ==> r.tx.sent == s.tx.sent)
  {
    if op.initMd.Some? {
      var s1 := if s.tx.hdr.initMdBytes != 0 then Flush(s) else s;
      assert s1.tx.payload == [];
      assert [] + EncodeMetadata(op.initMd.value) == EncodeMetadata(op.initMd.value);
    }
  }

  /** The packets of an op, given the message under construction when its loop begins. */
  function OpPackets(tx: Tx, op: SendOp): (ps: seq<Packet>)
    requires Room(tx) > 0
    ensures |ps| > 0
  {
    if |tx.payload| <= Room(tx) then Packets(tx.payload, Message(op), TrailBytes(op), Room(tx))
    else LongPackets(tx.payload, Message(op), TrailBytes(op))
  }

  lemma OpPacketsSound(tx: Tx, op: SendOp)
    requires Room(tx) > 0 && |TrailBytes(op)| <= Room(tx)
    ensures var ps := OpPackets(tx, op);
            BodyOf(ps) == Message(op) && ps[0].initMd == tx.payload && ps[|ps| - 1].trailMd == TrailBytes(op)
  {
    hide TrailBytes, Packets;
    var ps := OpPackets(tx, op);
    if |tx.payload| <= Room(tx) {
      PacketsSound(tx.payload, Message(op), TrailBytes(op), Room(tx));
    } else if TrailBytes(op) == [] {
      assert ps[1..] == [] && Message(op) + [] == Message(op);
    } else {
      assert ps[1..] == [Packet([], TrailBytes(op), [])] && ps[1..][1..] == [];
      assert BodyOf(ps[1..]) == [] && Message(op) + [] == Message(op);
    }
  }

  lemma LoopStart(s: Stream, op: SendOp)
    requires Ready(s) && |TrailBytes(op)| <= Room(s.tx)
    ensures var l := Loop(s, TrailBytes(op), [], Slices(op));
            InLoop(l) && Rest(l) == Message(op) && l.Left() == |Message(op)| &&
            PacketsLeft(l) == OpPackets(s.tx, op)
  {
    var l := Loop(s, TrailBytes(op), [], Slices(op));
    assert Rest(l) == Message(op);
    assert Cur(s.tx) == Packet(s.tx.payload, [], []);
    assert [] + Message(op) == Message(op);
  }

  lemma LongStart(s: Stream, op: SendOp)
    requires Clear(s) && !Ready(s)
    ensures var l := Loop(s, TrailBytes(op), [], Slices(op));
            TooLong(l) && LongEmitted(l, op) == s.tx.sent + Messages(s.tx, OpPackets(s.tx, op), op)
  {
    var l := Loop(s, TrailBytes(op), [], Slices(op));
    assert Rest(l) == Message(op);
    assert Cur(s.tx) == Packet(s.tx.payload, [], []);
    assert [] + Message(op) == Message(op);
    hide Messages;
  }

  /** Do the trailers leave the loop of xmit without a way on? They fill a message exactly, or they fill
      exactly what the last of the data leaves of one. */
  predicate NoWayOn(s: Stream, op: SendOp)
    requires Room(s.tx) > 0
  {
    var init, p := |WithInitial(s, op).tx.payload|, Room(s.tx);
    if init <= p then Stuck(init + |Message(op)|, |TrailBytes(op)|, p) else |TrailBytes(op)| == p
  }

  /** The loop of xmit, for the whole of an op: it ends unless the trailers leave it without a way on, and
      then all packets but the last are sent and the last is the message under construction. */
  lemma LoopEmits(s: Stream, op: SendOp)
    requires Clear(s) && |TrailBytes(op)| <= Room(s.tx)
    ensures var r, stuck := RunLoop(LoopOf(s, op)), NoWayOn(s, op);
            var w := WithInitial(s, op);
            (r.Guard() <==> stuck) &&
            (!stuck ==>
               !r.s.cancelled && LaidOut(r.s.tx) && Room(w.tx) > 0 &&
               r.s.tx.sent + Messages(r.s.tx, [Cur(r.s.tx)], op) ==
               w.tx.sent + Messages(w.tx, OpPackets(w.tx, op), op))
  {
    hide WithInitial, TrailBytes, Packets, Messages, RunLoop, Cur, Clear, InLoop, TooLong, LongEmitted, PacketsLeft,
      OpPackets;
    WithInitialReady(s, op);
    var w, l := WithInitial(s, op), LoopOf(s, op);
    if |w.tx.payload| <= Room(w.tx) {
      LoopStart(w, op);
      LoopResult(l, op);
      if !StuckLoop(l) { EmittedAtEnd(RunLoop(l), op); }
    } else {
      LongStart(w, op);
      LongResult(l, op);
    }
  }

  lemma XmitInLoop(s: Stream, op: SendOp)
    requires Clear(s) && !TooMuch(s, op)
    ensures var l := RunLoop(LoopOf(s, op));
            Xmit(s, op) == if l.Guard() then (l.s, Spins) else (FinishXmit(l.s, op), Done)
  {
    WithInitialReady(s, op);
    hide RunLoop, FinishXmit, WithInitial;
  }

  /** The loop of xmit fails to end in exactly one family of ops: the trailers fill the room left by
      the last of the data exactly. */
  lemma SpinsExactly(s: Stream, op: SendOp)
    requires Clear(s) && !TooMuch(s, op)
    ensures Xmit(s, op).1.Spins? <==> NoWayOn(s, op)
    ensures Xmit(s, op).1.Spins? <==> RunsForever(LoopOf(s, op))
  {
    XmitInLoop(s, op);
    LoopEmits(s, op);
    SpinsMeansForever(LoopOf(s, op));
    hide Xmit, RunLoop, RunsForever, NoWayOn;
  }

  /** One such op: trailers of 19 bytes, with messages of 40 bytes. */
  lemma ExactFitSpins(streamId: nat)
    ensures var s := NewStream(false, streamId, 40, []);
            var op := SendOp(None, None, Some([Pair([], [7, 7, 7, 7, 7, 7, 7, 7, 7, 7, 7])]));
            Clear(s) && !TooMuch(s, op) && Xmit(s, op).1.Spins? && RunsForever(LoopOf(s, op))
  {
    var s := NewStream(false, streamId, 40, []);
    var p: Mdata := Pair([], [7, 7, 7, 7, 7, 7, 7, 7, 7, 7, 7]);
    var op := SendOp(None, None, Some([p]));
    assert EncodeMetadata([p]) == EncodePair(p) + EncodeMetadata([]);
    assert |TrailBytes(op)| == 19;
    SpinsExactly(s, op);
  }

  /** An op is rejected exactly when its metadata is too large for one message. */
  lemma RejectedExactly(s: Stream, op: SendOp)
    requires Clear(s)
    ensures Xmit(s, op).1.Rejected? <==> TooMuch(s, op)
    ensures TooMuch(s, op) ==> Xmit(s, op).0 == WithInitial(s, op).(error := Some(TooMuchMetadata))
  {
    WithInitialReady(s, op);
  }

  /** The messages of an op. */
  function OpMessages(s: Stream, op: SendOp): (ms: seq<HomaMessage>)
    requires Clear(s)
  {
    WithInitialReady(s, op);
    var tx := WithInitial(s, op).tx;
    Messages(tx, OpPackets(tx, op), op)
  }

  /** The message under construction goes out as the last of the op. */
  lemma FinishFlushes(s: Stream, op: SendOp)
    requires !s.cancelled && LaidOut(s.tx) && Sends(op)
    ensures var f := FinishXmit(s, op);
            f.tx.sent == s.tx.sent + Messages(s.tx, [Cur(s.tx)], op) && f.tx.payload == [] &&
            f.tx.hdr == NewHeader(s.tx.streamId, s.tx.nextXmitSequence) && f.tx.streamId == s.tx.streamId &&
            f.tx.nextXmitSequence == s.tx.nextXmitSequence + 1 && Room(f.tx) == Room(s.tx) && !f.cancelled
  {
    hide TransferData;
    var tx := s.tx;
    var c, g := Cur(tx), FinalFlags(tx.hdr.flags, op);
    assert SetFinalFlags(s, op).tx == tx.(hdr := tx.hdr.(flags := g));
    assert Header(tx.hdr.streamId, tx.hdr.sequenceNum, |c.initMd|, |c.trailMd|, |c.body|, g) == tx.hdr.(flags := g);
  }

  /** What one iteration leaves alone. */
  predicate SameFrame(a: Stream, b: Stream) {
    b.rx == a.rx && b.tx.maxMessageLength == a.tx.maxMessageLength && b.tx.streamId == a.tx.streamId &&
    b.tx.dummies == a.tx.dummies && b.cancelled == a.cancelled &&
    (a.tx.nextXmitSequence == a.tx.hdr.sequenceNum + 1 ==> b.tx.nextXmitSequence == b.tx.hdr.sequenceNum + 1)
  }

  lemma StepFrame(l: Loop)
    ensures SameFrame(l.s, Step(l).s)
  {
    assert SameFrame(l.s, Flush(l.s));
    hide Flush;
    var a := FlushIfFull(l);
    assert SameFrame(l.s, a.s);
    hide FlushIfFull;
    var b := WriteTrailers(a);
    assert SameFrame(l.s, b.s);
    hide WriteTrailers;
  }

  /** The loop leaves everything outside the message being built alone. */
  lemma {:induction false} LoopFrame(l: Loop)
    requires !l.s.cancelled
    ensures var t := RunLoop(l).s;
            t.rx == l.s.rx && t.tx.maxMessageLength == l.s.tx.maxMessageLength && t.tx.streamId == l.s.tx.streamId &&
            t.tx.dummies == l.s.tx.dummies && !t.cancelled
    decreases |l.trail|, l.Left(), |l.data|, Pending(l.s.tx)
  {
    hide Step;
    if l.Guard() && Step(l) != l {
      StepProgress(l);
      StepFrame(l);
      LoopFrame(Step(l));
    }
  }

  /** An op that completes went through the loop. */
  lemma XmitDone(s: Stream, op: SendOp)
    requires Clear(s) && Xmit(s, op).1.Done?
    ensures !TooMuch(s, op) && |TrailBytes(op)| < Room(s.tx) && Clear(WithInitial(s, op)) && !NoWayOn(s, op)
    ensures var r := RunLoop(LoopOf(s, op));
            !r.Guard() && !r.s.cancelled && LaidOut(r.s.tx) && Xmit(s, op).0 == FinishXmit(r.s, op) &&
            r.s.tx.sent + Messages(r.s.tx, [Cur(r.s.tx)], op) == WithInitial(s, op).tx.sent + OpMessages(s, op)
  {
    RejectedExactly(s, op);
    XmitInLoop(s, op);
    LoopEmits(s, op);
    WithInitialReady(s, op);
    hide Xmit, RunLoop, FinishXmit, WithInitial, Messages, Cur, TrailBytes;
  }

  /** What an op sends: exactly its packets. */
  lemma XmitSends(s: Stream, op: SendOp)
    requires Clear(s) && Xmit(s, op).1.Done? && Sends(op)
    ensures !TooMuch(s, op) && Xmit(s, op).0.tx.sent == WithInitial(s, op).tx.sent + OpMessages(s, op)
  {
    hide Xmit, WithInitial, RunLoop, FinishXmit, OpMessages, Messages, Cur, LaidOut, TrailBytes, Clear;
    XmitDone(s, op);
    FinishFlushes(RunLoop(LoopOf(s, op)).s, op);
  }

  /** How many messages an op sends. */
  lemma XmitCount(s: Stream, op: SendOp)
    requires Clear(s) && Xmit(s, op).1.Done?
    ensures |OpMessages(s, op)| ==
            if |WithInitial(s, op).tx.payload| <= Room(s.tx)
            then PacketCount(Ahead(s, op), |TrailBytes(op)|, Room(s.tx))
            else if TrailBytes(op) == [] then 1 else 2
  {
    hide Xmit, WithInitial, RunLoop, FinishXmit, Packets, Messages, PacketCount, TrailBytes, Clear, Cur, LaidOut,
      NoWayOn;
    XmitDone(s, op);
    WithInitialReady(s, op);
    var tx := WithInitial(s, op).tx;
    MessagesCount(tx, OpPackets(tx, op), op);
    if |tx.payload| <= Room(tx) { CountPackets(tx.payload, Message(op), TrailBytes(op), Room(tx)); }
  }

  /** After an op that sends, nothing waits; the next message has the next number. */
  lemma XmitLeaves(s: Stream, op: SendOp)
    requires Clear(s) && Xmit(s, op).1.Done? && Sends(op)
    ensures var r := Xmit(s, op).0;
            Ready(r) && r.tx.payload == [] && !r.tx.hdr.flags.initMdPresent && Room(r.tx) == Room(s.tx)
  {
    hide Xmit, WithInitial, RunLoop, FinishXmit, Messages, Cur, LaidOut, OpMessages, NoWayOn;
    XmitDone(s, op);
    WithInitialReady(s, op);
    var l := LoopOf(s, op);
    FinishFlushes(RunLoop(l).s, op);
    LoopFrame(l);
    NumberingInLoop(l);
  }

  /** An op with initial metadata alone sends nothing now: the metadata waits. */
  lemma XmitInitialOnly(s: Stream, op: SendOp)
    requires Clear(s) && Xmit(s, op).1.Done? && !Sends(op)
    ensures Xmit(s, op).0 == WithInitial(s, op)
  {
    XmitDone(s, op);
    assert RunLoop(LoopOf(s, op)) == LoopOf(s, op);
    WithInitialReady(s, op);
    hide Xmit, WithInitial, RunLoop;
    assert SetFinalFlags(WithInitial(s, op), op) == WithInitial(s, op);
  }

  lemma {:induction false} NumberingInLoop(l: Loop)
    requires !l.s.cancelled && l.s.tx.nextXmitSequence == l.s.tx.hdr.sequenceNum + 1
    ensures var t := RunLoop(l).s.tx; t.nextXmitSequence == t.hdr.sequenceNum + 1
    decreases |l.trail|, l.Left(), |l.data|, Pending(l.s.tx)
  {
    hide Step;
    if l.Guard() && Step(l) != l {
      StepProgress(l);
      StepFrame(l);
      NumberingInLoop(Step(l));
    }
  }

  lemma {:induction false} MessagesCount(tx: Tx, ps: seq<Packet>, op: SendOp)
    requires |ps| > 0
    ensures |Messages(tx, ps, op)| == |ps|
    decreases |ps|
  {
    if |ps| > 1 { MessagesCount(NextTx(tx), ps[1..], op); }
  }

  // ------------------------------------------------ the messages of an op, one by one

  /** The data that a message carries. */
  function BodyBytes(m: HomaMessage): Bytes {
    if m.header.messageBytes <= |m.payload| then m.payload[|m.payload| - m.header.messageBytes..] else []
  }

  function AllBodies(ms: seq<HomaMessage>): Bytes {
    if ms == [] then [] else BodyBytes(ms[0]) + AllBodies(ms[1..])
  }

  /** The message holds the parts of the packet. */
  predicate Carries(m: HomaMessage, p: Packet) {
    |m.payload| == p.Size() && m.header.trailMdBytes == |p.trailMd| && BodyBytes(m) == p.body
  }

  predicate AllCarry(ms: seq<HomaMessage>, ps: seq<Packet>) {
    |ms| == |ps| && forall i :: 0 <= i < |ms| ==> Carries(ms[i], ps[i])
  }

  predicate EndsNothing(m: HomaMessage) { !m.header.flags.messageComplete && !m.header.flags.trailMdPresent }

  predicate Ends(m: HomaMessage, op: SendOp) {
    (m.header.flags.messageComplete <==> op.message.Some?) && (m.header.flags.trailMdPresent <==> op.trailMd.Some?)
  }

  lemma MessageCarries(tx: Tx, flags: Flags, p: Packet)
    ensures var m := MessageFor(tx, flags, p);
            Carries(m, p) && m.header.flags == flags.(request := m.header.flags.request)
  {}

  /** Each packet is in the message of the same place, and only the last message ends anything. */
  lemma {:induction false} MessagesCarryPackets(tx: Tx, ps: seq<Packet>, op: SendOp)
    requires |ps| > 0 && !tx.hdr.flags.messageComplete && !tx.hdr.flags.trailMdPresent
    ensures var ms := Messages(tx, ps, op);
            AllCarry(ms, ps) && (forall i :: 0 <= i < |ms| - 1 ==> EndsNothing(ms[i])) && Ends(ms[|ms| - 1], op)
    decreases |ps|
  {
    hide MessageFor, Carries;
    if |ps| > 1 {
      MessageCarries(tx, tx.hdr.flags, ps[0]);
      MessagesCarryPackets(NextTx(tx), ps[1..], op);
    } else {
      MessageCarries(tx, FinalFlags(tx.hdr.flags, op), ps[0]);
    }
  }

  lemma {:induction false} CarriedBodies(ms: seq<HomaMessage>, ps: seq<Packet>)
    requires AllCarry(ms, ps)
    ensures AllBodies(ms) == BodyOf(ps)
    decreases |ms|
  {
    hide BodyBytes;
    if ms != [] { CarriedBodies(ms[1..], ps[1..]); }
  }

  /** An op goes out in messages within the limit, all but the last two of them full (all but the last
      one, without trailers). Their data is the gRPC message; only the last one says that the message is
      complete, carries the trailers and says that they are there. */
  lemma OpMessagesShape(s: Stream, op: SendOp)
    requires Clear(s) && !TooMuch(s, op) && |WithInitial(s, op).tx.payload| <= Room(s.tx)
    ensures var ms, p := OpMessages(s, op), Room(s.tx);
            var n := |ms|;
            n > 0 && AllBodies(ms) == Message(op) && (forall i :: 0 <= i < n ==> |ms[i].payload| <= p) &&
            (forall i :: 0 <= i < n - (if TrailBytes(op) == [] then 1 else 2) ==> |ms[i].payload| == p) &&
            (forall i :: 0 <= i < n - 1 ==> ms[i].header.trailMdBytes == 0 && EndsNothing(ms[i])) &&
            ms[n - 1].header.trailMdBytes == |TrailBytes(op)| && Ends(ms[n - 1], op)
  {
    hide WithInitial, Packets, Messages, TrailBytes, AllBodies, Ends, EndsNothing;
    WithInitialReady(s, op);
    var tx := WithInitial(s, op).tx;
    assert |tx.payload| <= Room(tx) && !tx.hdr.flags.messageComplete && !tx.hdr.flags.trailMdPresent;
    hide Clear;
    MessagesShape(tx, Message(op), TrailBytes(op), op);
  }

  lemma MessagesShape(tx: Tx, body: Bytes, trail: Bytes, op: SendOp)
    requires Room(tx) > 0 && |tx.payload| <= Room(tx) && |trail| <= Room(tx)
    requires !tx.hdr.flags.messageComplete && !tx.hdr.flags.trailMdPresent
    ensures var ms, p := Messages(tx, Packets(tx.payload, body, trail, Room(tx)), op), Room(tx);
            var n := |ms|;
            n > 0 && AllBodies(ms) == body && (forall i :: 0 <= i < n ==> |ms[i].payload| <= p) &&
            (forall i :: 0 <= i < n - (if trail == [] then 1 else 2) ==> |ms[i].payload| == p) &&
            (forall i :: 0 <= i < n - 1 ==> ms[i].header.trailMdBytes == 0 && EndsNothing(ms[i])) &&
            ms[n - 1].header.trailMdBytes == |trail| && Ends(ms[n - 1], op)
  {
    hide Packets, Messages, AllBodies, BodyOf, BodyBytes, Ends, EndsNothing, AllCarry;
    var ps := Packets(tx.payload, body, trail, Room(tx));
    var ms := Messages(tx, ps, op);
    PacketsSound(tx.payload, body, trail, Room(tx));
    MessagesCarryPackets(tx, ps, op);
    CarriedBodies(ms, ps);
    CarriedSizes(ms, ps);
  }

  lemma CarriedSizes(ms: seq<HomaMessage>, ps: seq<Packet>)
    requires AllCarry(ms, ps)
    ensures |ms| == |ps|
    ensures forall i :: 0 <= i < |ms| ==>
              |ms[i].payload| == ps[i].Size() && ms[i].header.trailMdBytes == |ps[i].trailMd|
  {
    forall i | 0 <= i < |ms| ensures |ms[i].payload| == ps[i].Size() && ms[i].header.trailMdBytes == |ps[i].trailMd| {
      assert Carries(ms[i], ps[i]);
    }
  }

  // ------------------------------------------------ cancelled streams

  /** On a cancelled stream flush does nothing, so an op sends nothing. The loop ends only if everything
      fits in the one message that can never go out, or if this is too long already and there are no
      trailers: then all of the data is put into it. */
  lemma {:induction false} CancelledLoop(l: Loop)
    requires l.s.cancelled
    ensures var r, p := RunLoop(l), Room(l.s.tx);
            r.s.tx.sent == l.s.tx.sent && r.s.cancelled &&
            (r.Guard() <==> if |l.s.tx.payload| > p then l.trail != []
                            else if l.trail != [] then Total(l) >= p else Total(l) > p)
    decreases |l.trail|, l.Left(), |l.data|, Pending(l.s.tx)
  {
    if l.Guard() {
      assert FlushIfFull(l) == l;
      var b := WriteTrailers(l);
      if b.Left() > 0 {
        TakeSliceKeeps(b);
        PutChunkKeeps(TakeSlice(b));
      }
      if Step(l) != l {
        StepProgress(l);
        CancelledLoop(Step(l));
      } else {
        assert |b.trail| == |l.trail|;
      }
    }
  }

  lemma CancelledInitial(s: Stream, op: SendOp)
    requires s.cancelled
    ensures var w := WithInitial(s, op).tx;
            WithInitial(s, op).cancelled && w.sent == s.tx.sent && w.maxMessageLength == s.tx.maxMessageLength &&
            |w.payload| == |s.tx.payload| + if op.initMd.Some? then |EncodeMetadata(op.initMd.value)| else 0
  {}

  /** On a cancelled stream, xmit sends nothing. It rejects an op whose initial metadata makes the message
      under construction too long, or whose trailers exceed a message; of the others, it never returns
      from those with trailers that do not fit with room to spare, and from those with data that neither
      fits nor follows a message that is too long already. */
  lemma CancelledSpinsExactly(s: Stream, op: SendOp)
    requires s.cancelled
    ensures var r, p := Xmit(s, op), Room(s.tx);
            var pending := |s.tx.payload| + if op.initMd.Some? then |EncodeMetadata(op.initMd.value)| else 0;
            var total := pending + |Message(op)| + |TrailBytes(op)|;
            r.0.tx.sent == s.tx.sent &&
            (r.1.Rejected? <==> (op.initMd.Some? && pending > p) || |TrailBytes(op)| > p) &&
            (!r.1.Rejected? ==>
               (r.1.Spins? <==> if TrailBytes(op) != [] then total >= p else pending <= p < total))
  {
    CancelledInitial(s, op);
    var l := LoopOf(s, op);
    CancelledLoop(l);
    assert l.cut + Concat(l.data) == Message(op);
    var total := |l.s.tx.payload| + |Message(op)| + |TrailBytes(op)|;
    assert Total(l) == total;
    CancelledFinish(RunLoop(l).s, op);
    hide RunLoop, FinishXmit, WithInitial, EncodeMetadata;
  }

  lemma CancelledFinish(s: Stream, op: SendOp)
    requires s.cancelled
    ensures FinishXmit(s, op).tx.sent == s.tx.sent
  {
    hide TransferData;
  }
}
