/** Two streams connected by an unordered network. Whatever the sender's gRPC hands over, in whatever
    order and however often the messages arrive, whatever the receiver's gRPC asks for and when, and
    whatever errors and cancellations occur on either side: the receiver's gRPC gets a prefix of it. */
module EndToEnd {
  import opened Basics
  import opened Wire
  import opened StreamModel
  import opened Fragmentation
  import opened Sender
  import opened Receiver
  import opened StreamRuns
  import opened Delivery

  // ------------------------------------------------ messages as they are received

  /** A message as its receiver sees it. */
  function Received(m: HomaMessage): Incoming {
    Incoming(m.header.sequenceNum, m.header.flags, m.payload, m.header.initMdBytes, m.header.trailMdBytes,
             m.header.messageBytes)
  }

  function ReceivedAll(ms: seq<HomaMessage>): (r: seq<Incoming>)
    ensures |r| == |ms| && forall i :: 0 <= i < |ms| ==> r[i] == Received(ms[i])
  {
    seq(|ms|, i requires 0 <= i < |ms| => Received(ms[i]))
  }

  lemma ReceivedAppend(a: seq<HomaMessage>, b: seq<HomaMessage>)
    ensures ReceivedAll(a + b) == ReceivedAll(a) + ReceivedAll(b)
  {}

  lemma ReceivedParts(tx: Tx, flags: Flags, p: Packet)
    ensures var m := Received(MessageFor(tx, flags, p));
            InitMd(m) == p.initMd && TrailMd(m) == p.trailMd && Body(m) == p.body &&
            m.flags == flags.(request := m.flags.request)
  {}

  function Flag(b: bool, md: seq<Pair>): seq<seq<Pair>> { if b then [md] else [] }

  function EndMark(op: SendOp): seq<int> { if op.message.Some? then [END] else [] }

  predicate OnlyInit(f: Flags) { f == NO_FLAGS.(initMdPresent := f.initMdPresent) }

  /** The content of the messages of one op: the waiting initial metadata, the message with its end,
      the trailers; and only the last message carries trailers. */
  lemma {:induction false} MessagesContent(tx: Tx, ps: seq<Packet>, op: SendOp)
    requires |ps| > 0 && OnlyInit(tx.hdr.flags)
    ensures Contents(ReceivedAll(Messages(tx, ps, op))) ==
            Content(Flag(tx.hdr.flags.initMdPresent, ParseMetadata(ps[0].initMd)), BodyOf(ps) + EndMark(op),
                    Flag(op.trailMd.Some?, ParseMetadata(ps[|ps| - 1].trailMd)))
    ensures TrailLast(ReceivedAll(Messages(tx, ps, op)))
    decreases |ps|
  {
    hide ParseMetadata, MessageFor, ContentOf, Received;
    var ms := Messages(tx, ps, op);
    if |ps| == 1 {
      var flags := FinalFlags(tx.hdr.flags, op);
      var m := Received(MessageFor(tx, flags, ps[0]));
      PacketContent(tx, flags, ps[0]);
      assert ReceivedAll(ms) == [m];
      ContentsOne(m);
      assert ps[1..] == [] && ps[0].body + [] == ps[0].body;
      assert ReceivedAll(ms)[1..] == [];
    } else {
      var m, rest := MessageFor(tx, tx.hdr.flags, ps[0]), Messages(NextTx(tx), ps[1..], op);
      PacketContent(tx, tx.hdr.flags, ps[0]);
      MessagesContent(NextTx(tx), ps[1..], op);
      ReceivedAppend([m], rest);
      assert ReceivedAll([m]) == [Received(m)];
      FirstContent(Received(m), ReceivedAll(rest));
      hide Contents, TrailLast;
      assert ps[0].body + [] + (BodyOf(ps[1..]) + EndMark(op)) == BodyOf(ps) + EndMark(op);
    }
  }

  /** The content of the message that carries a packet. */
  lemma PacketContent(tx: Tx, flags: Flags, p: Packet)
    ensures var m := Received(MessageFor(tx, flags, p));
            ContentOf(m) == Content(Flag(flags.initMdPresent, ParseMetadata(p.initMd)),
                                    p.body + (if flags.messageComplete then [END] else []),
                                    Flag(flags.trailMdPresent, ParseMetadata(p.trailMd))) &&
            (m.flags.trailMdPresent <==> flags.trailMdPresent)
  {
    hide ParseMetadata, InitMd, TrailMd, Body;
    ReceivedParts(tx, flags, p);
  }

  /** A message without trailers, put in front. */
  lemma FirstContent(m: Incoming, ms: seq<Incoming>)
    requires TrailLast(ms) && !m.flags.trailMdPresent
    ensures Contents([m] + ms) == Join(ContentOf(m), Contents(ms)) && TrailLast([m] + ms)
  {
    var all := [m] + ms;
    assert all[1..] == ms;
    forall i | 0 <= i < |all| && all[i].flags.trailMdPresent ensures Contents(all[i + 1..]).tokens == [] {
      assert all[i + 1..] == ms[i..];
    }
    hide ContentOf;
  }

  /** What one op adds to the content of the messages sent. */
  function OpContent(s: Stream, op: SendOp): Content {
    var tx := WithInitial(s, op).tx;
    Content(Flag(tx.hdr.flags.initMdPresent, ParseMetadata(tx.payload)), Message(op) + EndMark(op),
            Flag(op.trailMd.Some?, ParseMetadata(TrailBytes(op))))
  }

  lemma OpMessagesContent(s: Stream, op: SendOp)
    requires Clear(s) && !TooMuch(s, op)
    ensures Contents(ReceivedAll(OpMessages(s, op))) == OpContent(s, op) && TrailLast(ReceivedAll(OpMessages(s, op)))
  {
    hide WithInitial, TrailBytes, OpPackets, Contents, Messages, ParseMetadata, BodyOf, TrailLast;
    WithInitialReady(s, op);
    var tx := WithInitial(s, op).tx;
    assert OnlyInit(tx.hdr.flags);
    hide Clear;
    var ps := OpPackets(tx, op);
    OpPacketsSound(tx, op);
    MessagesContent(tx, ps, op);
  }

  // ------------------------------------------------ what gRPC hands over

  /** The initial metadata, message bodies and trailing metadata that gRPC has handed over. */
  datatype Given = Given(inits: seq<Metadata>, bodies: seq<Bytes>, trails: seq<Metadata>)

  /** Metadata as it comes out of the parser. */
  function Parsed(mds: seq<Metadata>): (r: seq<seq<Pair>>)
    ensures |r| == |mds| && forall i :: 0 <= i < |mds| ==> r[i] == Surviving(mds[i])
  {
    seq(|mds|, i requires 0 <= i < |mds| => Surviving(mds[i]))
  }

  /** Messages as a stream of bytes with end marks. */
  function Tokens(bodies: seq<Bytes>): seq<int> {
    if bodies == [] then [] else Tokens(bodies[..|bodies| - 1]) + (bodies[|bodies| - 1] + [END])
  }

  lemma TokensAppend(bodies: seq<Bytes>, body: Bytes)
    ensures Tokens(bodies + [body]) == Tokens(bodies) + (body + [END])
  {
    assert (bodies + [body])[..|bodies|] == bodies;
  }

  lemma {:induction false} TokensFront(body: Bytes, bodies: seq<Bytes>)
    ensures Tokens([body] + bodies) == body + [END] + Tokens(bodies)
  {
    var all := [body] + bodies;
    if bodies == [] {
      assert all[..0] == [];
      assert [] + (body + [END]) == body + [END] + [];
    } else {
      var last := bodies[|bodies| - 1];
      assert all[..|all| - 1] == [body] + bodies[..|bodies| - 1];
      TokensFront(body, bodies[..|bodies| - 1]);
      Regroup3(body + [END], Tokens(bodies[..|bodies| - 1]), last + [END]);
    }
  }

  lemma Regroup3<T>(a: seq<T>, b: seq<T>, c: seq<T>)
    ensures (a + b) + c == a + (b + c)
  {}

  /** An end mark cannot be mistaken for a byte. */
  lemma SameFirst(a: Bytes, b: Bytes, restA: seq<int>, restB: seq<int>)
    requires a + [END] + restA <= b + [END] + restB
    ensures a == b && restA <= restB
  {
    var x, y := a + [END] + restA, b + [END] + restB;
    assert x[|a|] == END && y[|b|] == END;
    assert (forall i :: 0 <= i < |a| ==> x[i] == a[i]) && (forall i :: 0 <= i < |b| ==> y[i] == b[i]);
    assert |a| == |b|;
    assert a == x[..|a|] && b == y[..|b|];
    assert restA == x[|a| + 1..] && restB == y[|b| + 1..];
  }

  /** A prefix of the stream of bytes and end marks that ends with an end mark is a prefix of the list
      of messages. */
  lemma {:induction false} TokensPrefix(a: seq<Bytes>, b: seq<Bytes>)
    requires Tokens(a) <= Tokens(b)
    ensures a <= b
    decreases |a|
  {
    if a != [] {
      assert a == [a[0]] + a[1..];
      TokensFront(a[0], a[1..]);
      assert b != [];
      assert b == [b[0]] + b[1..];
      TokensFront(b[0], b[1..]);
      SameFirst(a[0], b[0], Tokens(a[1..]), Tokens(b[1..]));
      TokensPrefix(a[1..], b[1..]);
    }
  }

  lemma TokensClosed(bodies: seq<Bytes>)
    ensures Closed(Tokens(bodies))
  {}

  function OneMd(o: Option<Metadata>): seq<Metadata> { if o.Some? then [o.value] else [] }

  function OneBody(op: SendOp): seq<Bytes> { if op.message.Some? then [Message(op)] else [] }

  function GiveMore(g: Given, op: SendOp): Given {
    Given(g.inits + OneMd(op.initMd), g.bodies + OneBody(op), g.trails + OneMd(op.trailMd))
  }

  /** What xmit takes of an op: all of it, or, if it rejects the op, the initial metadata, which stays in
      the message under construction. */
  function Taken(op: SendOp, outcome: Outcome): SendOp {
    if outcome.Done? then op else SendOp(op.initMd, None, None)
  }

  /** gRPC sends initial metadata once and nothing after trailers. */
  predicate WellBehaved(g: Given, op: SendOp) { g.trails == [] && (op.initMd.Some? ==> g.inits == []) }

  // ------------------------------------------------ the sender's side

  function SentMessages(s: Stream): seq<Incoming> { ReceivedAll(s.tx.sent) }

  /** Initial metadata that has not been sent is in the message under construction. */
  predicate Holding(s: Stream, g: Given) {
    if s.tx.hdr.flags.initMdPresent
    then Contents(SentMessages(s)).inits == [] && |g.inits| == 1 && s.tx.payload == EncodeMetadata(g.inits[0]) &&
         g.trails == []
    else Contents(SentMessages(s)).inits == Parsed(g.inits) && s.tx.payload == []
  }

  /** The messages sent contain what gRPC has handed over; initial metadata may still be waiting. */
  predicate SenderOk(s: Stream, g: Given) {
    var C := Contents(SentMessages(s));
    && BetweenOps(s)
    && TrailLast(SentMessages(s))
    && C.tokens == Tokens(g.bodies)
    && C.trails == Parsed(g.trails)
    && C.inits <= Parsed(g.inits)
    && |g.inits| <= 1
    && (!s.cancelled ==> Clear(s) && Holding(s, g))
  }

  /** The messages sent later continue those sent before; after trailers, none of them has data. */
  predicate Extends(s: Stream, r: Stream) {
    s.tx.sent <= r.tx.sent &&
    (Contents(SentMessages(s)).trails != [] ==> Contents(ReceivedAll(r.tx.sent[|s.tx.sent|..])).tokens == [])
  }

  lemma ExtendsBy(s: Stream, r: Stream, more: seq<HomaMessage>)
    requires r.tx.sent == s.tx.sent + more
    requires Contents(SentMessages(s)).trails != [] ==> Contents(ReceivedAll(more)).tokens == []
    ensures Extends(s, r) && SentMessages(r) == SentMessages(s) + ReceivedAll(more)
    ensures Contents(SentMessages(r)) == Join(Contents(SentMessages(s)), Contents(ReceivedAll(more)))
  {
    hide Contents;
    assert r.tx.sent[|s.tx.sent|..] == more;
    ReceivedAppend(s.tx.sent, more);
    ContentsAppend(SentMessages(s), ReceivedAll(more));
  }

  lemma {:induction false} NoTrailFlags(ms: seq<Incoming>)
    requires Contents(ms).trails == []
    ensures forall i :: 0 <= i < |ms| ==> !ms[i].flags.trailMdPresent
  {
    if ms != [] {
      NoTrailFlags(ms[1..]);
      assert forall i :: 0 < i < |ms| ==> ms[i] == ms[1..][i - 1];
    }
  }

  lemma TrailLastAppend(a: seq<Incoming>, b: seq<Incoming>)
    requires Contents(a).trails == [] && TrailLast(b)
    ensures TrailLast(a + b)
  {
    hide Contents;
    NoTrailFlags(a);
    forall i | 0 <= i < |a + b| && (a + b)[i].flags.trailMdPresent ensures Contents((a + b)[i + 1..]).tokens == [] {
      assert (a + b)[i] == b[i - |a|];
      assert (a + b)[i + 1..] == b[i - |a| + 1..];
    }
  }

  /** What an op adds is what gRPC has handed over with it, and any initial metadata from before. */
  lemma OpContentGiven(s: Stream, op: SendOp, g: Given)
    requires SenderOk(s, g) && !s.cancelled && WellBehaved(g, op)
    ensures var C, n := Join(Contents(SentMessages(s)), OpContent(s, op)), GiveMore(g, op);
            C.inits == Parsed(n.inits) && C.tokens == Tokens(n.bodies) && C.trails == Parsed(n.trails) &&
            |n.inits| <= 1
    ensures WithInitial(s, op).tx.sent == s.tx.sent
  {
    hide Contents, BetweenOps, TrailLast, EncodeMetadata, ParseMetadata;
    var w := WithInitial(s, op);
    WithInitialReady(s, op);
    OpInits(s, op, g);
    if op.message.Some? {
      TokensAppend(g.bodies, Message(op));
    } else {
      assert Message(op) + EndMark(op) == [] && GiveMore(g, op).bodies == g.bodies;
    }
    if op.trailMd.Some? { MetadataRoundTrip(op.trailMd.value); }
  }

  lemma OpInits(s: Stream, op: SendOp, g: Given)
    requires SenderOk(s, g) && !s.cancelled && WellBehaved(g, op)
    ensures Contents(SentMessages(s)).inits + OpContent(s, op).inits == Parsed(g.inits + OneMd(op.initMd))
    ensures op.initMd.Some? ==> s.tx.payload == []
  {
    hide Contents, BetweenOps, TrailLast, EncodeMetadata, ParseMetadata;
    var w := WithInitial(s, op);
    WithInitialReady(s, op);
    if op.initMd.Some? {
      MetadataRoundTrip(op.initMd.value);
    } else if s.tx.hdr.flags.initMdPresent {
      MetadataRoundTrip(g.inits[0]);
    }
    hide WithInitial, Message, EndMark, Clear;
  }

  lemma SendKeepsSender(s: Stream, op: SendOp, g: Given)
    requires SenderOk(s, g) && !s.cancelled && WellBehaved(g, op) && Xmit(s, op).1.Done?
    ensures SenderOk(Xmit(s, op).0, GiveMore(g, op)) && Extends(s, Xmit(s, op).0)
  {
    XmitCoherent(s, op);
    hide SenderOk, BetweenOps, Contents, TrailLast, Xmit, EncodeMetadata, Clear, GiveMore, WithInitial, Extends;
    if Sends(op) {
      SendsWhole(s, op, g);
    } else {
      XmitInitialOnly(s, op);
      InitialOnly(s, op, g);
    }
  }

  lemma SendsWhole(s: Stream, op: SendOp, g: Given)
    requires SenderOk(s, g) && !s.cancelled && WellBehaved(g, op) && Xmit(s, op).1.Done? && Sends(op)
    requires BetweenOps(Xmit(s, op).0)
    ensures SenderOk(Xmit(s, op).0, GiveMore(g, op)) && Extends(s, Xmit(s, op).0)
  {
    var r := Xmit(s, op).0;
    XmitSends(s, op);
    XmitLeaves(s, op);
    assert Clear(r) by { hide WithInitial; }
    OpMessagesContent(s, op);
    assert WithInitial(s, op).tx.sent == s.tx.sent by { OpContentGiven(s, op, g); }
    hide BetweenOps, Contents, TrailLast, Xmit, OpContent, EncodeMetadata, OpMessages, Clear, GiveMore, WithInitial,
      TooMuch, SentMessages, ReceivedAll, Extends, Message, Ready, Tokens, Parsed;
    OpIsAdded(s, r, op, g, OpMessages(s, op));
  }

  /** The messages of an op add what is handed over with it. */
  lemma OpIsAdded(s: Stream, r: Stream, op: SendOp, g: Given, more: seq<HomaMessage>)
    requires SenderOk(s, g) && !s.cancelled && WellBehaved(g, op) && r.tx.sent == s.tx.sent + more
    requires Contents(ReceivedAll(more)) == OpContent(s, op) && TrailLast(ReceivedAll(more))
    ensures Extends(s, r) && TrailLast(SentMessages(r))
    ensures var C, n := Contents(SentMessages(r)), GiveMore(g, op);
            C.inits == Parsed(n.inits) && C.tokens == Tokens(n.bodies) && C.trails == Parsed(n.trails) &&
            |n.inits| <= 1
  {
    OpContentGiven(s, op, g);
    assert Contents(SentMessages(s)).trails == [] by { assert g.trails == []; }
    hide BetweenOps, Contents, TrailLast, OpContent, Clear, GiveMore, SentMessages, ReceivedAll, Extends;
    ExtendsBy(s, r, more);
    TrailLastAppend(SentMessages(s), ReceivedAll(more));
  }

  lemma InitialOnly(s: Stream, op: SendOp, g: Given)
    requires SenderOk(s, g) && !s.cancelled && WellBehaved(g, op) && !Sends(op)
    requires BetweenOps(WithInitial(s, op))
    ensures SenderOk(WithInitial(s, op), GiveMore(g, op)) && Extends(s, WithInitial(s, op))
  {
    hide BetweenOps, TrailLast, EncodeMetadata, ParseMetadata, Clear;
    assert Contents(ReceivedAll([])) == NOTHING;
    hide Contents;
    OpContentGiven(s, op, g);
    OpInits(s, op, g);
    WithInitialReady(s, op);
    var r, n := WithInitial(s, op), GiveMore(g, op);
    ExtendsBy(s, r, []);
    assert n.bodies == g.bodies && n.trails == g.trails;
  }

  /** After a rejected op, the stream goes on: what it has taken of the op waits. */
  lemma RejectedKeepsSender(s: Stream, op: SendOp, g: Given)
    requires SenderOk(s, g) && !s.cancelled && WellBehaved(g, op) && Xmit(s, op).1.Rejected?
    ensures SenderOk(Xmit(s, op).0, GiveMore(g, Taken(op, Rejected))) && Extends(s, Xmit(s, op).0)
  {
    var w, r, part := WithInitial(s, op), Xmit(s, op).0, Taken(op, Rejected);
    RejectedExactly(s, op);
    WithInitialCoherent(s, op);
    assert WithInitial(s, part) == w;
    hide Xmit, WithInitial, BetweenOps, Clear, Holding, Contents, TrailLast;
    InitialOnly(s, part, g);
    SameOutgoingKeepsSender(w, r, GiveMore(g, part));
    assert Extends(s, r);
  }

  /** The transmit state, but for the requests to be answered. */
  predicate SameOutgoing(a: Tx, b: Tx) {
    a.hdr == b.hdr && a.payload == b.payload && a.sent == b.sent && a.nextXmitSequence == b.nextXmitSequence &&
    a.streamId == b.streamId && a.maxMessageLength == b.maxMessageLength
  }

  lemma QuietEvent(s: Stream, e: Event)
    requires e.Recv? || e.Arrive? || e.ReadError?
    ensures SameOutgoing(s.tx, Apply(s, e).tx) && (s.cancelled ==> Apply(s, e).cancelled)
  {
    hide TransferData, Enqueue, FailAll, Register;
  }

  lemma SameOutgoingKeepsSender(s: Stream, r: Stream, g: Given)
    requires SenderOk(s, g) && SameOutgoing(s.tx, r.tx) && (s.cancelled ==> r.cancelled)
    ensures SenderOk(r, g) && Extends(s, r)
  {
    hide TrailLast, EncodeMetadata;
    assert SentMessages(r) == SentMessages(s);
    assert Contents(ReceivedAll([])) == NOTHING;
    hide Contents;
    ExtendsBy(s, r, []);
    assert SentOk(r.tx);
  }

  /** The message that cancels a stream carries no data. */
  lemma CancelMessage(s: Stream, g: Given)
    requires SenderOk(s, g) && !s.cancelled
    ensures var c := Contents([Received(Outgoing(CancelMark(s).tx))]);
            c.tokens == [] && c.trails == [] && Contents(SentMessages(s)).inits + c.inits == Parsed(g.inits)
    ensures !Received(Outgoing(CancelMark(s).tx)).flags.trailMdPresent
  {
    hide Contents, TrailLast, BetweenOps;
    var m := Received(Outgoing(CancelMark(s).tx));
    ContentsOne(m);
    if s.tx.hdr.flags.initMdPresent {
      MetadataRoundTrip(g.inits[0]);
      assert InitMd(m) == s.tx.payload;
    }
  }

  lemma CancelKeepsSender(s: Stream, g: Given, reason: Error)
    requires SenderOk(s, g)
    ensures SenderOk(Apply(s, CancelStream(reason)), g) && Extends(s, Apply(s, CancelStream(reason)))
  {
    var r := Apply(s, CancelStream(reason));
    if s.cancelled {
      hide FailAll;
      SameOutgoingKeepsSender(s, r, g);
    } else {
      var m := Outgoing(CancelMark(s).tx);
      EventCoherent(s, CancelStream(reason));
      CancelMessage(s, g);
      CancelSends(s, reason);
      hide Apply, Outgoing, CancelMark, SenderOk, Extends, BetweenOps, Received, Contents;
      MessageWithoutData(s, r, g, m);
    }
  }

  lemma MessageWithoutData(s: Stream, r: Stream, g: Given, m: HomaMessage)
    requires SenderOk(s, g) && r.tx.sent == s.tx.sent + [m] && r.cancelled && BetweenOps(r)
    requires !Received(m).flags.trailMdPresent
    requires var c := Contents([Received(m)]);
             c.tokens == [] && c.trails == [] && Contents(SentMessages(s)).inits + c.inits == Parsed(g.inits)
    ensures SenderOk(r, g) && Extends(s, r)
  {
    hide Contents, TrailLast, BetweenOps, Clear, Holding, Received, Tokens;
    assert ReceivedAll([m]) == [Received(m)];
    ExtendsBy(s, r, [m]);
    CancelTrailLast(SentMessages(s), Received(m));
    var C := Contents(SentMessages(s));
    assert C.tokens + [] == C.tokens && C.trails + [] == C.trails;
  }

  lemma CancelTrailLast(ms: seq<Incoming>, m: Incoming)
    requires TrailLast(ms) && Contents([m]).tokens == [] && !m.flags.trailMdPresent
    ensures TrailLast(ms + [m])
  {
    hide Contents;
    forall i | 0 <= i < |ms + [m]| && (ms + [m])[i].flags.trailMdPresent
      ensures Contents((ms + [m])[i + 1..]).tokens == []
    {
      assert (ms + [m])[i + 1..] == ms[i + 1..] + [m];
      ContentsAppend(ms[i + 1..], [m]);
    }
  }

  lemma CancelSends(s: Stream, reason: Error)
    requires !s.cancelled
    ensures var r := Apply(s, CancelStream(reason));
            r.tx.sent == s.tx.sent + [Outgoing(CancelMark(s).tx)] && r.cancelled
  {
    hide FailAll;
  }

  lemma CancelledSendOk(s: Stream, e: Event, g: Given)
    requires SenderOk(s, g) && s.cancelled && e.Send? && !Xmit(s, e.send).1.Spins?
    ensures SenderOk(Apply(s, e), g) && Extends(s, Apply(s, e))
  {
    var r := Apply(s, e);
    EventSilent(s, e);
    EventCoherent(s, e);
    hide Apply, Contents, TrailLast, BetweenOps, Clear, Holding;
    ExtendsBy(s, r, []);
  }

  // ------------------------------------------------ the receiver's side

  /** The receiver is in step, or an error has stopped it on the way. */
  predicate ReceiverOk(s: Stream, M: seq<Incoming>) {
    EndedWell(s.rx.done, M) &&
    (InStep(s.rx, M) || (Dead(s) && PrefixOf(DoneContent(s.rx.done), Contents(M))))
  }

  lemma {:induction false} FailuresAddNothing(before: seq<Completion>, after: seq<Completion>)
    requires OnlyFailures(before, after)
    ensures DoneContent(after) == DoneContent(before) && (SaysNoMessage(after) <==> SaysNoMessage(before))
    decreases |after|
  {
    if |before| < |after| {
      var shorter := after[..|after| - 1];
      assert shorter[..|before|] == before;
      FailuresAddNothing(before, shorter);
      assert after == shorter + [after[|after| - 1]];
      JoinNothing(DoneContent(shorter));
    } else {
      assert before == after;
    }
  }

  /** An error that is announced leaves what has been handed over as it is. */
  lemma KilledOk(s: Stream, r: Stream, M: seq<Incoming>)
    requires ReceiverOk(s, M) && Dead(r) && OnlyFailures(s.rx.done, r.rx.done)
    ensures ReceiverOk(r, M)
  {
    hide InStep, Contents, DoneContent, OnlyFailures, SaysNoMessage;
    FailuresAddNothing(s.rx.done, r.rx.done);
    if InStep(s.rx, M) { InStepPrefix(s.rx, M); }
  }

  /** The messages sent, as the receiver's lemmas need them. */
  predicate Streamlike(M: seq<Incoming>) {
    TrailLast(M) && Closed(Contents(M).tokens) && forall k :: 0 <= k < |M| ==> M[k].sequence == k + 1
  }

  predicate FromPeer(e: Event, M: seq<Incoming>) {
    match e
    case Arrive(m, homaId) => 1 <= m.sequence <= |M| && m == M[m.sequence - 1]
    case _ => true
  }

  predicate PoliteEvent(s: Stream, e: Event) { e.Recv? ==> Polite(s.rx, e.recv) }

  lemma ReceiveOk(s: Stream, op: RecvOp, M: seq<Incoming>)
    requires ReceiverOk(s, M) && InStep(s.rx, M) && Streamlike(M) && Polite(s.rx, op)
    ensures ReceiverOk(Receive(s, op), M)
  {
    hide InStep, TrailLast, Closed, EndedWell, OnlyFailures, TransferData, Register, FailAll, NoCallbacks;
    if s.error.Some? {
      RegisterInStep(s.rx, M, op);
      ApplyRecv(s, op);
      StoppedEvent(s, Recv(op));
      KilledOk(s, Receive(s, op), M);
    } else {
      RegisterInStep(s.rx, M, op);
      TransferInStep(Register(s.rx, op), M);
    }
  }

  lemma SendOk(s: Stream, op: SendOp, M: seq<Incoming>)
    requires ReceiverOk(s, M) && InStep(s.rx, M) && Streamlike(M)
    ensures ReceiverOk(Apply(s, Send(op)), M)
  {
    var rx := s.rx.(trailMdSent := true);
    XmitRx(s, op);
    TrailMdSentInStep(s.rx, M);
    hide InStep, TrailLast, Closed, EndedWell, TransferData, Xmit;
    TransferInStep(rx, M);
  }

  lemma TrailMdSentInStep(rx: Rx, M: seq<Incoming>)
    requires InStep(rx, M)
    ensures InStep(rx.(trailMdSent := true), M)
  {
    hide ContentOf, Contents, DoneContent;
    SameQueue(rx, rx.(trailMdSent := true), M);
    hide Synced, Beyond, Remaining;
  }

  /** Every event keeps the receiver in order. */
  lemma EventOk(s: Stream, e: Event, M: seq<Incoming>)
    requires ReceiverOk(s, M) && Streamlike(M) && FromPeer(e, M) && PoliteEvent(s, e)
    ensures ReceiverOk(Apply(s, e), M)
  {
    hide InStep, TrailLast, Closed, EndedWell, OnlyFailures, Dead, Apply;
    if Dead(s) || e.CancelStream? || e.ReadError? || (e.Arrive? && e.msg.flags.cancelled) {
      StoppedEvent(s, e);
      KilledOk(s, Apply(s, e), M);
    } else {
      match e
      case Send(op) => SendOk(s, op, M);
      case Recv(op) => ReceiveOk(s, op, M); ApplyRecv(s, op);
      case Arrive(m, homaId) => ApplyArrive(s, m, homaId); EnqueueInStep(s.rx, M, m.sequence - 1);
    }
  }

  lemma ApplyRecv(s: Stream, op: RecvOp)
    ensures Apply(s, Recv(op)) == Receive(s, op)
  {}

  lemma ApplyArrive(s: Stream, m: Incoming, homaId: nat)
    requires !m.flags.cancelled
    ensures Apply(s, Arrive(m, homaId)).rx == Enqueue(s.rx, m)
  {}

  /** When the peer sends more, the receiver stays in order. */
  lemma GrowOk(s: Stream, M: seq<Incoming>, N: seq<Incoming>)
    requires ReceiverOk(s, M) && (Contents(M).trails != [] ==> Contents(N).tokens == [])
    ensures ReceiverOk(s, M + N)
  {
    ContentsAppend(M, N);
    hide Synced, Conserved, Contents, DoneContent, Dead, SaysNoMessage;
    if InStep(s.rx, M) { GrowInStep(s.rx, M, N); }
  }

  // ------------------------------------------------ what has arrived

  /** The message with this number has been handed over in full, or it waits. */
  predicate Seen(rx: Rx, k: nat) { k < rx.nextIncomingSequence || Waiting(rx.incoming, k) }

  lemma TransferSeen(rx: Rx, k: nat)
    requires QueueOk(rx) && Seen(rx, k)
    ensures Seen(TransferData(rx), k)
  {
    RetiredInOrder(rx);
    var r, n := TransferLoop(rx), Retired(rx);
    if k >= rx.nextIncomingSequence {
      var i :| 0 <= i < |rx.incoming| && rx.incoming[i].sequence == k;
      if i == n {
        assert r.incoming[0].sequence == k;
      } else if i > n {
        assert r.incoming[1..][i - n - 1] == rx.incoming[n + 1..][i - n - 1];
        assert r.incoming[i - n].sequence == k;
      }
    }
    hide TransferLoop;
  }

  lemma InsertSeen(q: seq<Incoming>, m: Incoming, k: nat)
    requires Insert(q, m).Some? && (k == m.sequence || Waiting(q, k))
    ensures Waiting(Insert(q, m).value, k)
  {
    var p, r := Place(q, m.sequence), Insert(q, m).value;
    InsertAtPlace(q, m);
    hide Insert, Place;
    if k == m.sequence {
      assert r[p] == m;
    } else {
      var i :| 0 <= i < |q| && q[i].sequence == k;
      assert r[if i < p then i else i + 1] == q[i];
    }
  }

  lemma EnqueueSeen(rx: Rx, m: Incoming, k: nat)
    requires QueueOk(rx) && (k == m.sequence || Seen(rx, k))
    ensures Seen(Enqueue(rx, m), k)
  {
    hide TransferData, Waiting;
    InsertDropsDuplicates(rx.incoming, m);
    var q := Insert(rx.incoming, m);
    if m.sequence >= rx.nextIncomingSequence && q.Some? {
      InsertKeepsOrder(rx, m);
      if k >= rx.nextIncomingSequence { InsertSeen(rx.incoming, m, k); }
      TransferSeen(rx.(incoming := q.value), k);
    }
  }

  predicate Brings(e: Event, k: nat) { e.Arrive? && e.msg.sequence == k }

  /** A message that has arrived stays known until an error stops the stream. */
  lemma EventSeen(s: Stream, e: Event, k: nat)
    requires QueueOk(s.rx) && (Dead(s) || Brings(e, k) || Seen(s.rx, k))
    ensures Dead(Apply(s, e)) || Seen(Apply(s, e).rx, k)
  {
    hide OnlyFailures, Dead, Apply, QueueOk, Seen;
    if Dead(s) || e.CancelStream? || e.ReadError? || (e.Arrive? && e.msg.flags.cancelled) {
      StoppedEvent(s, e);
    } else {
      match e
      case Send(op) => SendSeen(s, op, k);
      case Recv(op) => ReceiveSeen(s, op, k);
      case Arrive(m, homaId) => ApplyArrive(s, m, homaId); EnqueueSeen(s.rx, m, k);
    }
  }

  lemma SendSeen(s: Stream, op: SendOp, k: nat)
    requires QueueOk(s.rx) && Seen(s.rx, k)
    ensures Seen(Apply(s, Send(op)).rx, k)
  {
    hide TransferData, Xmit, Waiting;
    XmitRx(s, op);
    TransferSeen(s.rx.(trailMdSent := true), k);
  }

  lemma ReceiveSeen(s: Stream, op: RecvOp, k: nat)
    requires QueueOk(s.rx) && Seen(s.rx, k)
    ensures Seen(Apply(s, Recv(op)).rx, k)
  {
    hide TransferData, Waiting, Sorted;
    TransferSeen(SaveCallbacks(s, op).rx, k);
  }

  lemma FrontOrBelow(rx: Rx, k: nat)
    requires QueueOk(rx) && Waiting(rx.incoming, k)
    ensures |rx.incoming| > 0 && rx.incoming[0].sequence <= k
  {}

  /** If all of the messages have been seen and the front one is not blocked, nothing is left. */
  lemma AllHandedOver(rx: Rx, M: seq<Incoming>)
    requires Synced(rx, M) && Settled(rx) && (forall k :: 1 <= k <= |M| ==> Seen(rx, k))
    requires |rx.incoming| > 0 ==> !Blocked(rx, rx.incoming[0])
    ensures rx.nextIncomingSequence == |M| + 1 && rx.incoming == [] && Remaining(rx, M) == NOTHING
  {
    hide Blocked, ContentOf;
    var n := rx.nextIncomingSequence;
    if n <= |M| {
      assert Seen(rx, n);
      FrontOrBelow(rx, n);
    }
    assert M[|M|..] == [];
  }

  // ------------------------------------------------ two streams and a network

  /** Two streams, what gRPC has handed over on the sending side, and the numbers of the messages that
      have arrived on the other. */
  datatype Link = Link(a: Stream, b: Stream, given: Given, arrived: set<nat>)

  /** AtSender and AtReceiver are events of the streams themselves. Deliver lets the k-th message sent
      arrive; it can happen any number of times, in any order, or never. */
  datatype LinkEvent = AtSender(e: Event) | AtReceiver(e: Event) | Deliver(k: nat, homaId: nat)

  /** gRPC behaves, and asks for a message only when it has received the previous one. An op from which
      xmit never returns ends a run. */
  predicate Allowed(l: Link, ev: LinkEvent) {
    match ev
    case AtSender(e) =>
      Possible(l.a, e) && (e.Send? && !l.a.cancelled ==> WellBehaved(l.given, e.send))
    case AtReceiver(e) => Possible(l.b, e) && !e.Arrive? && PoliteEvent(l.b, e)
    case Deliver(k, homaId) => k < |l.a.tx.sent| && (l.a.tx.sent[k].header.flags.request ==> homaId != 0)
  }

  function GivenAfter(s: Stream, e: Event, g: Given): Given {
    if e.Send? && !s.cancelled then GiveMore(g, Taken(e.send, Xmit(s, e.send).1)) else g
  }

  function Next(l: Link, ev: LinkEvent): Link {
    match ev
    case AtSender(e) =>
      l.(a := Apply(l.a, e), given := GivenAfter(l.a, e, l.given))
    case AtReceiver(e) => l.(b := Apply(l.b, e))
    case Deliver(k, homaId) =>
      if k < |l.a.tx.sent|
      then l.(b := Apply(l.b, Arrive(Received(l.a.tx.sent[k]), homaId)), arrived := l.arrived + {k + 1})
      else l
  }

  predicate AllowedRun(l: Link, evs: seq<LinkEvent>)
    decreases |evs|
  {
    evs == [] || (Allowed(l, evs[0]) && AllowedRun(Next(l, evs[0]), evs[1..]))
  }

  function RunLink(l: Link, evs: seq<LinkEvent>): Link
    decreases |evs|
  {
    if evs == [] then l else RunLink(Next(l, evs[0]), evs[1..])
  }

  predicate ArrivedOk(s: Stream, arrived: set<nat>) { Dead(s) || forall k :: k in arrived ==> Seen(s.rx, k) }

  predicate LinkOk(l: Link) {
    && SenderOk(l.a, l.given)
    && ReceiverOk(l.b, SentMessages(l.a))
    && QueueOk(l.b.rx)
    && Settled(l.b.rx)
    && ArrivedOk(l.b, l.arrived)
  }

  lemma SenderStreamlike(s: Stream, g: Given)
    requires SenderOk(s, g)
    ensures Streamlike(SentMessages(s))
  {
    TokensClosed(g.bodies);
    hide TrailLast, Contents, Tokens, Building, Clear, Holding;
  }

  lemma SenderEventOk(s: Stream, e: Event, g: Given)
    requires SenderOk(s, g)
    requires Possible(s, e) && (e.Send? && !s.cancelled ==> WellBehaved(g, e.send))
    ensures SenderOk(Apply(s, e), GivenAfter(s, e, g)) && Extends(s, Apply(s, e))
  {
    if e.Send? {
      if s.cancelled {
        CancelledSendOk(s, e, g);
      } else if Xmit(s, e.send).1.Done? {
        SendKeepsSender(s, e.send, g);
      } else {
        RejectedKeepsSender(s, e.send, g);
      }
    } else if e.CancelStream? {
      CancelKeepsSender(s, g, e.reason);
    } else {
      QuietEvent(s, e);
      hide Apply;
      SameOutgoingKeepsSender(s, Apply(s, e), g);
    }
    hide SenderOk, Xmit, Extends, GiveMore, CancelPeer, FailAll;
  }

  lemma ArrivalsOk(s: Stream, e: Event, before: set<nat>, after: set<nat>)
    requires ArrivedOk(s, before) && QueueOk(s.rx)
    requires forall k :: k in after ==> k in before || Brings(e, k)
    ensures ArrivedOk(Apply(s, e), after)
  {
    hide QueueOk, Apply, Dead, Seen, Brings;
    forall k | k in after ensures Dead(Apply(s, e)) || Seen(Apply(s, e).rx, k) { EventSeen(s, e, k); }
  }

  lemma ReceiverEventOk(s: Stream, e: Event, M: seq<Incoming>, before: set<nat>, after: set<nat>)
    requires ReceiverOk(s, M) && QueueOk(s.rx) && Settled(s.rx) && ArrivedOk(s, before) && Streamlike(M)
    requires FromPeer(e, M) && PoliteEvent(s, e) && forall k :: k in after ==> k in before || Brings(e, k)
    ensures var r := Apply(s, e);
            ReceiverOk(r, M) && QueueOk(r.rx) && Settled(r.rx) && ArrivedOk(r, after)
  {
    hide ReceiverOk, QueueOk, Settled, ArrivedOk, Streamlike, Apply, FromPeer;
    EventOk(s, e, M);
    EventKeepsQueue(s, e);
    EventSettled(s, e);
    ArrivalsOk(s, e, before, after);
  }

  lemma NextOk(l: Link, ev: LinkEvent)
    requires LinkOk(l) && Allowed(l, ev)
    ensures LinkOk(Next(l, ev))
  {
    hide SenderOk, ReceiverOk, QueueOk, Settled, ArrivedOk, Streamlike, Apply, Xmit, WellBehaved, Possible;
    var M := SentMessages(l.a);
    SenderStreamlike(l.a, l.given);
    match ev
    case AtSender(e) =>
      SenderEventOk(l.a, e, l.given);
      var more := ReceivedAll(Apply(l.a, e).tx.sent[|l.a.tx.sent|..]);
      assert SentMessages(Apply(l.a, e)) == M + more;
      GrowOk(l.b, M, more);
    case AtReceiver(e) => ReceiverEventOk(l.b, e, M, l.arrived, l.arrived);
    case Deliver(k, homaId) =>
      SentSequence(l.a, l.given, k);
      ReceiverEventOk(l.b, Arrive(M[k], homaId), M, l.arrived, l.arrived + {k + 1});
  }

  lemma SentSequence(s: Stream, g: Given, k: nat)
    requires SenderOk(s, g) && k < |s.tx.sent|
    ensures SentMessages(s)[k].sequence == k + 1
  {
    hide Contents, Tokens, TrailLast, Building, Clear, Holding;
  }

  lemma {:induction false} RunOk(l: Link, evs: seq<LinkEvent>)
    requires LinkOk(l) && AllowedRun(l, evs)
    ensures LinkOk(RunLink(l, evs))
    decreases |evs|
  {
    hide LinkOk, Next, Allowed;
    if evs != [] {
      NextOk(l, evs[0]);
      RunOk(Next(l, evs[0]), evs[1..]);
    }
  }

  predicate NewlyMade(s: Stream) {
    s == NewStream(s.rx.isServer, s.tx.streamId, s.tx.maxMessageLength, s.tx.sendErrors)
  }

  /** Two new streams, each on a client or on a server. */
  predicate NewLink(l: Link) {
    NewlyMade(l.a) && l.a.tx.maxMessageLength > HEADER_LENGTH && NewlyMade(l.b) && l.given == Given([], [], []) &&
    l.arrived == {}
  }

  lemma NewSenderOk(s: Stream)
    requires NewlyMade(s) && s.tx.maxMessageLength > HEADER_LENGTH
    ensures SenderOk(s, Given([], [], []))
  {
    NewStreamOk(s.rx.isServer, s.tx.streamId, s.tx.maxMessageLength, s.tx.sendErrors);
    assert SentMessages(s) == [] && Contents([]) == NOTHING;
    hide BetweenOps, Contents;
  }

  lemma NewReceiverOk(s: Stream)
    requires NewlyMade(s)
    ensures ReceiverOk(s, []) && QueueOk(s.rx) && Settled(s.rx)
  {
    var rx := s.rx;
    NewStreamOk(rx.isServer, s.tx.streamId, s.tx.maxMessageLength, s.tx.sendErrors);
    assert rx.incoming == [] && rx.done == [] && rx.nextIncomingSequence == 1 && rx.messageCb.None? && !rx.eof;
    hide NewlyMade;
    NothingInStep(rx);
  }

  lemma NothingInStep(rx: Rx)
    requires rx.incoming == [] && rx.done == [] && rx.nextIncomingSequence == 1 && rx.messageCb.None? && !rx.eof
    ensures InStep(rx, []) && EndedWell(rx.done, [])
  {
    assert Contents([]) == NOTHING && DoneContent([]) == NOTHING;
    assert Synced(rx, []) && Beyond(rx, []) == [];
    JoinNothing(NOTHING);
    hide Contents, DoneContent, ContentOf;
  }

  lemma NewLinkOk(l: Link)
    requires NewLink(l)
    ensures LinkOk(l)
  {
    NewSenderOk(l.a);
    NewReceiverOk(l.b);
    assert SentMessages(l.a) == [];
    hide SenderOk, ReceiverOk, QueueOk, Settled, NewlyMade;
  }

  // ------------------------------------------------ what the receiver's gRPC gets

  function Bodies(done: seq<Completion>): seq<Bytes> {
    if done == [] then []
    else
      var last := done[|done| - 1];
      Bodies(done[..|done| - 1]) + if last.MessageReady? then [last.body] else []
  }

  function InitMds(done: seq<Completion>): seq<seq<Pair>> {
    if done == [] then []
    else
      var last := done[|done| - 1];
      InitMds(done[..|done| - 1]) + if last.InitMdReady? then [last.md] else []
  }

  function TrailMds(done: seq<Completion>): seq<seq<Pair>> {
    if done == [] then []
    else
      var last := done[|done| - 1];
      TrailMds(done[..|done| - 1]) + if last.TrailMdReady? then [last.md] else []
  }

  lemma {:induction false} DoneParts(done: seq<Completion>)
    ensures DoneContent(done) == Content(InitMds(done), Tokens(Bodies(done)), TrailMds(done))
  {
    if done != [] {
      var rest, last := done[..|done| - 1], done[|done| - 1];
      DoneParts(rest);
      if last.MessageReady? {
        TokensAppend(Bodies(rest), last.body);
      } else {
        assert Bodies(done) == Bodies(rest);
      }
      hide Tokens;
    }
  }

  /** In every run, whatever the network does with the messages and whatever fails: the metadata and the
      messages that the receiving gRPC gets are a prefix of what the sending gRPC has handed over. */
  lemma DeliveredIsPrefix(l: Link, evs: seq<LinkEvent>)
    requires NewLink(l) && AllowedRun(l, evs)
    ensures var r := RunLink(l, evs);
            InitMds(r.b.rx.done) <= Parsed(r.given.inits) && Bodies(r.b.rx.done) <= r.given.bodies &&
            TrailMds(r.b.rx.done) <= Parsed(r.given.trails)
  {
    NewLinkOk(l);
    RunOk(l, evs);
    var r := RunLink(l, evs);
    hide RunLink, AllowedRun, NewLink, Contents, DoneContent, InStep, TrailLast, EndedWell, BetweenOps, Clear, Dead;
    if InStep(r.b.rx, SentMessages(r.a)) { InStepPrefix(r.b.rx, SentMessages(r.a)); }
    DoneParts(r.b.rx.done);
    TokensPrefix(Bodies(r.b.rx.done), r.given.bodies);
  }

  /** gRPC is told that there are no more messages only after it has got every one of them, and only if
      the sender has finished. */
  lemma EndOfStreamIsSafe(l: Link, evs: seq<LinkEvent>)
    requires NewLink(l) && AllowedRun(l, evs)
    ensures var r := RunLink(l, evs);
            SaysNoMessage(r.b.rx.done) ==> Bodies(r.b.rx.done) == r.given.bodies && r.given.trails != []
  {
    NewLinkOk(l);
    RunOk(l, evs);
    var r := RunLink(l, evs);
    hide RunLink, AllowedRun, NewLink, Contents, EndedWell, InStep, TrailLast, SaysNoMessage, BetweenOps, Clear, Dead,
      Settled, Holding, Tokens, Bodies, DoneContent, ArrivedOk, QueueOk;
    if SaysNoMessage(r.b.rx.done) { EndedGiven(r.b.rx.done, SentMessages(r.a), r.given); }
  }

  lemma EndedGiven(done: seq<Completion>, M: seq<Incoming>, g: Given)
    requires EndedWell(done, M) && SaysNoMessage(done)
    requires Contents(M).tokens == Tokens(g.bodies) && Contents(M).trails == Parsed(g.trails)
    ensures Bodies(done) == g.bodies && g.trails != []
  {
    DoneParts(done);
    TokensPrefix(Bodies(done), g.bodies);
    TokensPrefix(g.bodies, Bodies(done));
    hide Contents, DoneContent, SaysNoMessage, Bodies, Tokens;
  }

  /** When all messages have arrived, no error has stopped the receiver and the front message is not
      blocked, gRPC has got everything. */
  lemma EverythingIsDelivered(l: Link, evs: seq<LinkEvent>)
    requires NewLink(l) && AllowedRun(l, evs)
    ensures var r := RunLink(l, evs);
            var rx, n := r.b.rx, |r.a.tx.sent|;
            !Dead(r.b) && (forall k :: 1 <= k <= n ==> k in r.arrived) &&
            (|rx.incoming| > 0 ==> !Blocked(rx, rx.incoming[0])) ==>
              rx.nextIncomingSequence == n + 1 && rx.incoming == [] && Bodies(rx.done) == r.given.bodies &&
              TrailMds(rx.done) == Parsed(r.given.trails) &&
              (!r.a.cancelled && !r.a.tx.hdr.flags.initMdPresent ==> InitMds(rx.done) == Parsed(r.given.inits))
  {
    NewLinkOk(l);
    RunOk(l, evs);
    var r := RunLink(l, evs);
    var rx, M := r.b.rx, SentMessages(r.a);
    hide RunLink, AllowedRun, NewLink, Contents, TrailLast, EndedWell, BetweenOps, Clear, Dead, InStep, Settled,
      Blocked, QueueOk, Seen, Tokens, Bodies, DoneContent;
    if !Dead(r.b) && (forall k :: 1 <= k <= |M| ==> k in r.arrived) &&
       (|rx.incoming| > 0 ==> !Blocked(rx, rx.incoming[0])) {
      AllDelivered(rx, M, r.given);
    }
  }

  lemma AllDelivered(rx: Rx, M: seq<Incoming>, g: Given)
    requires InStep(rx, M) && Settled(rx) && (forall k :: 1 <= k <= |M| ==> Seen(rx, k))
    requires |rx.incoming| > 0 ==> !Blocked(rx, rx.incoming[0])
    requires Contents(M).tokens == Tokens(g.bodies)
    ensures rx.nextIncomingSequence == |M| + 1 && rx.incoming == [] && Bodies(rx.done) == g.bodies
    ensures TrailMds(rx.done) == Contents(M).trails && InitMds(rx.done) == Contents(M).inits
  {
    hide Contents, DoneContent, Synced, Settled, Blocked, Beyond, Seen, Tokens, Bodies;
    AllHandedOver(rx, M);
    TokensClosed(g.bodies);
    hide Remaining, Closed;
    if Partial(rx).tokens != [] { PartialIsOpen(DoneContent(rx.done).tokens, BodySoFar(rx)); }
    JoinNothing(Delivered(rx));
    JoinNothing(DoneContent(rx.done));
    DoneParts(rx.done);
    TokensPrefix(Bodies(rx.done), g.bodies);
    TokensPrefix(g.bodies, Bodies(rx.done));
  }

  // ------------------------------------------------ the length limit

  predicate Fit(ms: seq<HomaMessage>, room: int) { forall i :: 0 <= i < |ms| ==> |ms[i].payload| <= room }

  /** Initial metadata that exceeds a message, so that its op was rejected, has been sent all the same. */
  predicate LongSent(s: Stream, g: Given) {
    Contents(SentMessages(s)).inits != [] && g.inits != [] && |EncodeMetadata(g.inits[0])| > Room(s.tx)
  }

  predicate LimitOk(s: Stream, g: Given) { Fit(s.tx.sent, Room(s.tx)) <==> !LongSent(s, g) }

  /** Initial metadata goes out once; only the messages that it goes out with can be too long. */
  lemma LimitGrows(s: Stream, r: Stream, g: Given, n: Given, more: seq<HomaMessage>)
    requires LimitOk(s, g) && r.tx.sent == s.tx.sent + more && Room(r.tx) == Room(s.tx)
    requires var C, D := Contents(SentMessages(s)).inits, Contents(ReceivedAll(more)).inits;
             if C != [] then n.inits == g.inits && Fit(more, Room(s.tx))
             else Fit(more, Room(s.tx)) <==>
                  !(D != [] && n.inits != [] && |EncodeMetadata(n.inits[0])| > Room(s.tx))
    ensures LimitOk(r, n)
  {
    hide Contents, EncodeMetadata, Fit;
    FitAppend(s.tx.sent, more, Room(s.tx));
    InitsAppend(s, r, more);
  }

  lemma FitAppend(a: seq<HomaMessage>, b: seq<HomaMessage>, room: int)
    ensures Fit(a + b, room) <==> Fit(a, room) && Fit(b, room)
  {
    var c := a + b;
    assert (forall i :: 0 <= i < |a| ==> c[i] == a[i]) && forall i :: 0 <= i < |b| ==> b[i] == c[i + |a|];
  }

  lemma InitsAppend(s: Stream, r: Stream, more: seq<HomaMessage>)
    requires r.tx.sent == s.tx.sent + more
    ensures Contents(SentMessages(r)).inits == Contents(SentMessages(s)).inits + Contents(ReceivedAll(more)).inits
  {
    ReceivedAppend(s.tx.sent, more);
    ContentsAppend(SentMessages(s), ReceivedAll(more));
    hide Contents;
  }

  /** The first packet of an op holds the waiting initial metadata. */
  lemma OpFits(s: Stream, op: SendOp)
    requires Clear(s) && !TooMuch(s, op)
    ensures Fit(OpMessages(s, op), Room(s.tx)) <==> |WithInitial(s, op).tx.payload| <= Room(s.tx)
  {
    WithInitialReady(s, op);
    var tx := WithInitial(s, op).tx;
    if |tx.payload| <= Room(tx) {
      OpMessagesShape(s, op);
      hide OpMessages;
    } else {
      var ps := OpPackets(tx, op);
      MessagesCarryPackets(tx, ps, op);
      hide Messages, WithInitial, TrailBytes, AllCarry;
      CarriedSizes(OpMessages(s, op), ps);
      assert |OpMessages(s, op)[0].payload| > Room(s.tx);
    }
  }

  lemma SendLimit(s: Stream, op: SendOp, g: Given)
    requires SenderOk(s, g) && !s.cancelled && WellBehaved(g, op) && Xmit(s, op).1.Done? && LimitOk(s, g)
    ensures LimitOk(Xmit(s, op).0, GiveMore(g, op))
  {
    hide BetweenOps, Contents, TrailLast, Xmit, EncodeMetadata, OpMessages, LimitOk, Fit;
    OpContentGiven(s, op, g);
    WithInitialReady(s, op);
    XmitKeepsRoom(s, op);
    if Sends(op) {
      XmitSends(s, op);
      OpMessagesContent(s, op);
      OpFits(s, op);
      LimitGrows(s, Xmit(s, op).0, g, GiveMore(g, op), OpMessages(s, op));
    } else {
      XmitInitialOnly(s, op);
      NothingSentLimit(s, Xmit(s, op).0, g, GiveMore(g, op));
    }
  }

  lemma NothingSentLimit(s: Stream, r: Stream, g: Given, n: Given)
    requires LimitOk(s, g) && r.tx.sent == s.tx.sent && Room(r.tx) == Room(s.tx)
    requires Contents(SentMessages(s)).inits != [] ==> n.inits == g.inits
    ensures LimitOk(r, n)
  {
    assert Contents(ReceivedAll([])) == NOTHING;
    hide Contents, EncodeMetadata;
    LimitGrows(s, r, g, n, []);
  }

  lemma RejectedLimit(s: Stream, op: SendOp, g: Given)
    requires SenderOk(s, g) && !s.cancelled && WellBehaved(g, op) && Xmit(s, op).1.Rejected? && LimitOk(s, g)
    ensures LimitOk(Xmit(s, op).0, GiveMore(g, Taken(op, Rejected)))
  {
    hide BetweenOps, Contents, TrailLast, EncodeMetadata, LimitOk, Fit;
    RejectedExactly(s, op);
    XmitKeepsRoom(s, op);
    OpContentGiven(s, op, g);
    hide Xmit, WithInitial;
    NothingSentLimit(s, Xmit(s, op).0, g, GiveMore(g, Taken(op, Rejected)));
  }

  lemma CancelLimit(s: Stream, g: Given, reason: Error)
    requires SenderOk(s, g) && !s.cancelled && LimitOk(s, g)
    ensures LimitOk(Apply(s, CancelStream(reason)), g)
  {
    var r, m := Apply(s, CancelStream(reason)), Outgoing(CancelMark(s).tx);
    assert m.payload == s.tx.payload;
    hide Apply, Outgoing, CancelMark, Contents, TrailLast, BetweenOps, Received, LimitOk, EncodeMetadata, ReceivedAll,
      Tokens, Parsed;
    CancelSends(s, reason);
    CancelKeepsRoom(s, reason);
    CancelMessage(s, g);
    assert ReceivedAll([m]) == [Received(m)];
    LimitGrows(s, r, g, g, [m]);
  }

  lemma CancelKeepsRoom(s: Stream, reason: Error)
    ensures Room(Apply(s, CancelStream(reason)).tx) == Room(s.tx)
  {
    hide FailAll;
  }

  lemma {:induction false} LoopKeepsRoom(l: Loop)
    ensures RunLoop(l).s.tx.maxMessageLength == l.s.tx.maxMessageLength
    decreases |l.trail|, l.Left(), |l.data|, Pending(l.s.tx)
  {
    if l.Guard() && Step(l) != l {
      StepProgress(l);
      LoopKeepsRoom(Step(l));
    }
  }

  lemma XmitKeepsRoom(s: Stream, op: SendOp)
    ensures Xmit(s, op).0.tx.maxMessageLength == s.tx.maxMessageLength
  {
    XmitShape(s, op);
    hide Xmit, RunLoop, TransferData, TrailBytes;
    LoopKeepsRoom(LoopOf(s, op));
  }

  lemma EventLimit(s: Stream, e: Event, g: Given)
    requires SenderOk(s, g) && Possible(s, e) && LimitOk(s, g)
    requires e.Send? && !s.cancelled ==> WellBehaved(g, e.send)
    ensures LimitOk(Apply(s, e), GivenAfter(s, e, g))
  {
    hide SenderOk, LimitOk, Xmit, FailAll, Enqueue, Register, TransferData, Taken;
    if e.Send? {
      if s.cancelled {
        EventSilent(s, e);
        XmitKeepsRoom(s, e.send);
        NothingSentLimit(s, Apply(s, e), g, g);
      } else if Xmit(s, e.send).1.Done? {
        SendLimit(s, e.send, g);
        assert Taken(e.send, Done) == e.send by { TakenAll(e.send); }
      } else {
        RejectedLimit(s, e.send, g);
      }
    } else if e.CancelStream? {
      if s.cancelled {
        NothingSentLimit(s, Apply(s, e), g, g);
      } else {
        CancelLimit(s, g, e.reason);
      }
    } else {
      QuietEvent(s, e);
      NothingSentLimit(s, Apply(s, e), g, g);
    }
  }

  lemma TakenAll(op: SendOp)
    ensures Taken(op, Done) == op
  {}

  lemma {:induction false} RunLimit(l: Link, evs: seq<LinkEvent>)
    requires LinkOk(l) && AllowedRun(l, evs) && LimitOk(l.a, l.given)
    ensures LimitOk(RunLink(l, evs).a, RunLink(l, evs).given)
    decreases |evs|
  {
    if evs != [] {
      var ev := evs[0];
      hide LimitOk, Apply, Possible, WellBehaved, Xmit, SenderOk, ReceiverOk, QueueOk, Settled, ArrivedOk, GivenAfter;
      if ev.AtSender? { EventLimit(l.a, ev.e, l.given); }
      NextOk(l, ev);
      hide LinkOk;
      RunLimit(Next(l, ev), evs[1..]);
    }
  }

  /** Every message that is sent in a run is numbered and tells its own length. All are within the limit if
      and only if no initial metadata that exceeds a message has gone out. */
  lemma SentWithinLimit(l: Link, evs: seq<LinkEvent>)
    requires NewLink(l) && AllowedRun(l, evs)
    ensures var r := RunLink(l, evs);
            var sent := r.a.tx.sent;
            (forall i :: 0 <= i < |sent| ==> Coherent(sent[i], r.a.tx.streamId, i + 1)) &&
            ((forall i :: 0 <= i < |sent| ==> sent[i].header.MessageLength() <= r.a.tx.maxMessageLength) <==>
             !LongSent(r.a, r.given))
  {
    hide RunLink, AllowedRun, LimitOk, LongSent, Building, ReceiverOk, Settled, QueueOk, ArrivedOk, Coherent, Clear,
      Holding, TrailLast;
    NewLinkOk(l);
    NewLimitOk(l.a, l.given);
    hide Contents, NewLink;
    RunOk(l, evs);
    RunLimit(l, evs);
    LimitInLengths(RunLink(l, evs).a, RunLink(l, evs).given);
  }

  lemma NewLimitOk(s: Stream, g: Given)
    requires s.tx.sent == []
    ensures LimitOk(s, g)
  {
    assert SentMessages(s) == [] && Contents([]) == NOTHING;
  }

  lemma LimitInLengths(s: Stream, g: Given)
    requires SentOk(s.tx) && LimitOk(s, g)
    ensures (forall i :: 0 <= i < |s.tx.sent| ==> s.tx.sent[i].header.MessageLength() <= s.tx.maxMessageLength) <==>
            !LongSent(s, g)
  {
    hide LongSent;
    var sent := s.tx.sent;
    forall i | 0 <= i < |sent| ensures sent[i].header.MessageLength() == HEADER_LENGTH + |sent[i].payload| {
      assert Coherent(sent[i], s.tx.streamId, i + 1);
    }
  }
}
