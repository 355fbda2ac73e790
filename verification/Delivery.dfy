/** What a receiver hands to gRPC, compared with the messages its peer has sent. The sent messages are
    a sequence M whose element i has sequence number i + 1; the receiver has seen some of them, in any
    order. The central fact is a conservation law: what has been handed over, followed by what is
    still to come, is always the whole content of M. */
module Delivery {
  import opened Basics
  import opened Wire
  import opened StreamModel
  import opened Receiver

  /** Marks the end of a gRPC message in a stream of bytes. */
  const END: int := 256

  /** The content of messages: the initial metadata in them, their data with the message boundaries,
      and the trailing metadata. */
  datatype Content = Content(inits: seq<seq<Pair>>, tokens: seq<int>, trails: seq<seq<Pair>>)

  const NOTHING := Content([], [], [])

  function Join(a: Content, b: Content): Content {
    Content(a.inits + b.inits, a.tokens + b.tokens, a.trails + b.trails)
  }

  predicate PrefixOf(a: Content, b: Content) { a.inits <= b.inits && a.tokens <= b.tokens && a.trails <= b.trails }

  lemma JoinAssociative(a: Content, b: Content, c: Content)
    ensures Join(Join(a, b), c) == Join(a, Join(b, c))
  {}

  lemma JoinNothing(a: Content)
    ensures Join(a, NOTHING) == a && Join(NOTHING, a) == a
  {}

  lemma JoinPrefix(a: Content, b: Content)
    ensures PrefixOf(a, Join(a, b))
  {}

  function ContentOf(m: Incoming): Content {
    Content(if m.flags.initMdPresent then [ParseMetadata(InitMd(m))] else [],
            Body(m) + if m.flags.messageComplete then [END] else [],
            if m.flags.trailMdPresent then [ParseMetadata(TrailMd(m))] else [])
  }

  function Contents(ms: seq<Incoming>): Content {
    if ms == [] then NOTHING else Join(ContentOf(ms[0]), Contents(ms[1..]))
  }

  lemma {:induction false} ContentsAppend(a: seq<Incoming>, b: seq<Incoming>)
    ensures Contents(a + b) == Join(Contents(a), Contents(b))
  {
    if a == [] {
      assert a + b == b;
      JoinNothing(Contents(b));
    } else {
      assert (a + b)[0] == a[0] && (a + b)[1..] == a[1..] + b;
      ContentsAppend(a[1..], b);
      JoinAssociative(ContentOf(a[0]), Contents(a[1..]), Contents(b));
      hide Join, ContentOf;
    }
  }

  lemma ContentsOne(m: Incoming)
    ensures Contents([m]) == ContentOf(m)
  {
    assert [m][1..] == [];
    JoinNothing(ContentOf(m));
    hide Join, ContentOf;
  }

  function CompletionContent(c: Completion): Content {
    match c
    case InitMdReady(_, md, _) => Content([md], [], [])
    case MessageReady(_, body) => Content([], body + [END], [])
    case TrailMdReady(_, md) => Content([], [], [md])
    case NoMessage(_) => NOTHING
    case Failed(_, _) => NOTHING
  }

  function DoneContent(done: seq<Completion>): Content {
    if done == [] then NOTHING else Join(DoneContent(done[..|done| - 1]), CompletionContent(done[|done| - 1]))
  }

  lemma DoneOne(done: seq<Completion>, c: Completion)
    ensures DoneContent(done + [c]) == Join(DoneContent(done), CompletionContent(c))
  {
    assert (done + [c])[..|done|] == done;
  }

  /** The data that is in the gRPC message being received. */
  function Partial(rx: Rx): Content { Content([], if rx.messageCb.Some? then BodySoFar(rx) else [], []) }

  /** Everything that has been handed to gRPC. */
  function Delivered(rx: Rx): Content { Join(DoneContent(rx.done), Partial(rx)) }

  predicate AtFront(rx: Rx) { |rx.incoming| > 0 && rx.incoming[0].sequence == rx.nextIncomingSequence }

  /** The queue holds messages of M; only the one whose turn it is may have been handed over in part. */
  predicate Synced(rx: Rx, M: seq<Incoming>) {
    && QueueOk(rx)
    && 1 <= rx.nextIncomingSequence <= |M| + 1
    && (forall i :: 0 <= i < |rx.incoming| ==> 1 <= rx.incoming[i].sequence <= |M|)
    && (forall i :: (if AtFront(rx) then 1 else 0) <= i < |rx.incoming| ==>
          rx.incoming[i] == M[rx.incoming[i].sequence - 1])
    && (AtFront(rx) && rx.incoming[0].flags.trailMdPresent ==> M[rx.nextIncomingSequence - 1].flags.trailMdPresent)
  }

  /** The messages of M that come after the front one. */
  function Beyond(rx: Rx, M: seq<Incoming>): seq<Incoming>
    requires Synced(rx, M)
  {
    if AtFront(rx) then M[rx.nextIncomingSequence..] else M[rx.nextIncomingSequence - 1..]
  }

  /** What is still to be handed over: the rest of the front message, then the messages beyond it. */
  function Remaining(rx: Rx, M: seq<Incoming>): Content
    requires Synced(rx, M)
  {
    Join(if AtFront(rx) then ContentOf(rx.incoming[0]) else NOTHING, Contents(Beyond(rx, M)))
  }

  /** Nothing is lost, nothing is duplicated, nothing changes its place. */
  predicate Conserved(rx: Rx, M: seq<Incoming>)
    requires Synced(rx, M)
  {
    Join(Delivered(rx), Remaining(rx, M)) == Contents(M)
  }

  /** The end of the stream is seen in a message with trailers; no data is beyond the front message then. */
  predicate EofOk(rx: Rx, M: seq<Incoming>)
    requires Synced(rx, M)
  {
    rx.eof ==> Contents(M).trails != [] && Contents(Beyond(rx, M)).tokens == []
  }

  /** Trailers come last: no data follows a message with trailers. */
  predicate TrailLast(M: seq<Incoming>) {
    forall i :: 0 <= i < |M| && M[i].flags.trailMdPresent ==> Contents(M[i + 1..]).tokens == []
  }

  predicate InStep(rx: Rx, M: seq<Incoming>) { Synced(rx, M) && Conserved(rx, M) && EofOk(rx, M) }

  // ------------------------------------------------ the steps of the receiver

  /** Offering the front message moves content from the front to what has been delivered. */
  lemma OfferMoves(rx: Rx)
    requires |rx.incoming| > 0
    ensures Join(Delivered(Offer(rx)), ContentOf(Offer(rx).incoming[0])) ==
            Join(Delivered(rx), ContentOf(rx.incoming[0]))
  {
    OfferInSteps(rx);
    var a := OfferInitMd(rx);
    var b := OfferBody(a);
    OfferInitMdMoves(rx);
    OfferBodyMoves(a);
    OfferTrailMdMoves(b);
    hide Offer, OfferInitMd, OfferBody, OfferTrailMd, Join, Delivered, ContentOf;
  }

  lemma MoveInit(d: Content, p: Content, md: seq<Pair>, c: Content)
    requires p.inits == [] && c.inits == []
    ensures Join(Join(Join(d, Content([md], [], [])), p), c) == Join(Join(d, p), c.(inits := [md]))
  {}

  lemma MoveMessage(d: Content, part: seq<int>, body: seq<int>, c: Content)
    requires c.tokens == []
    ensures Join(Join(Join(d, Content([], part + body + [END], [])), NOTHING), c) ==
            Join(Join(d, Content([], part, [])), c.(tokens := body + [END]))
  {}

  lemma MoveData(d: Content, part: seq<int>, body: seq<int>, c: Content)
    requires c.tokens == []
    ensures Join(Join(d, Content([], part + body, [])), c) == Join(Join(d, Content([], part, [])), c.(tokens := body))
  {}

  lemma MoveTrail(d: Content, p: Content, md: seq<Pair>, c: Content)
    requires p.trails == [] && c.trails == []
    ensures Join(Join(Join(d, Content([], [], [md])), p), c) == Join(Join(d, p), c.(trails := [md]))
  {}

  lemma OfferInitMdMoves(rx: Rx)
    requires |rx.incoming| > 0
    ensures var r := OfferInitMd(rx);
            Join(Delivered(r), ContentOf(r.incoming[0])) == Join(Delivered(rx), ContentOf(rx.incoming[0]))
  {
    hide Join, ParseMetadata, Body, TrailMd, DoneContent;
    var m, r := rx.incoming[0], OfferInitMd(rx);
    if GivesInitMd(rx, m) {
      DoneOne(rx.done, r.done[|rx.done|]);
      PartsKept(m, r.incoming[0]);
      MoveInit(DoneContent(rx.done), Partial(rx), ParseMetadata(InitMd(m)), ContentOf(r.incoming[0]));
    } else {
      assert r.incoming[0] == m;
    }
  }

  lemma PartsKept(a: Incoming, b: Incoming)
    requires a.payload == b.payload && a.initMdLength == b.initMdLength && a.trailMdLength == b.trailMdLength
    ensures InitMd(a) == InitMd(b) && TrailMd(a) == TrailMd(b) && (a.bodyLength == b.bodyLength ==> Body(a) == Body(b))
    ensures b.bodyLength == 0 ==> Body(b) == []
  {}

  lemma OfferBodyMoves(rx: Rx)
    requires |rx.incoming| > 0
    ensures var r := OfferBody(rx);
            Join(Delivered(r), ContentOf(r.incoming[0])) == Join(Delivered(rx), ContentOf(rx.incoming[0]))
  {
    hide Join, ParseMetadata, InitMd, Body, TrailMd, DoneContent;
    var m, r := rx.incoming[0], OfferBody(rx);
    PartsKept(m, r.incoming[0]);
    if GivesMessage(rx, m) {
      DoneOne(rx.done, r.done[|rx.done|]);
      MoveMessage(DoneContent(rx.done), BodySoFar(rx), Body(m), ContentOf(r.incoming[0]));
    } else if rx.messageCb.Some? {
      assert !m.flags.messageComplete;
      assert Body(m) + [] == Body(m);
      MoveData(DoneContent(rx.done), BodySoFar(rx), Body(m), ContentOf(r.incoming[0]));
    } else {
      assert r.incoming[0] == m;
    }
  }

  lemma OfferTrailMdMoves(rx: Rx)
    requires |rx.incoming| > 0
    ensures var r := OfferTrailMd(rx);
            Join(Delivered(r), ContentOf(r.incoming[0])) == Join(Delivered(rx), ContentOf(rx.incoming[0]))
  {
    hide Join, ParseMetadata, InitMd, Body, TrailMd, DoneContent;
    var m, r := rx.incoming[0], OfferTrailMd(rx);
    PartsKept(m, r.incoming[0]);
    if GivesTrailMd(rx, m) {
      DoneOne(rx.done, r.done[|rx.done|]);
      MoveTrail(DoneContent(rx.done), Partial(rx), ParseMetadata(TrailMd(m)), ContentOf(r.incoming[0]));
    } else {
      assert r.incoming[0] == m;
    }
  }

  lemma OfferSynced(rx: Rx, M: seq<Incoming>)
    requires Synced(rx, M) && FrontAvailable(rx)
    ensures AtFront(rx) && Synced(Offer(rx), M) && AtFront(Offer(rx)) && Beyond(Offer(rx), M) == Beyond(rx, M)
  {
    OfferKeepsQueue(rx);
    var o := Offer(rx);
    assert forall i :: 0 < i < |o.incoming| ==> o.incoming[i] == rx.incoming[i];
    hide QueueOk;
  }

  lemma OfferInStep(rx: Rx, M: seq<Incoming>)
    requires InStep(rx, M) && TrailLast(M) && FrontAvailable(rx)
    ensures InStep(Offer(rx), M) && AtFront(Offer(rx))
  {
    OfferSynced(rx, M);
    OfferMoves(rx);
    var o := Offer(rx);
    var rest := Contents(Beyond(rx, M));
    JoinAssociative(Delivered(rx), ContentOf(rx.incoming[0]), rest);
    JoinAssociative(Delivered(o), ContentOf(o.incoming[0]), rest);
    if o.eof && !rx.eof {
      assert rx.incoming[0].flags.trailMdPresent && ContentOf(rx.incoming[0]).trails != [];
      assert M[rx.nextIncomingSequence - 1].flags.trailMdPresent;
      assert Contents(M).trails == Join(Delivered(rx), Remaining(rx, M)).trails;
    }
    hide Synced, Contents, Delivered;
  }

  /** A message with nothing left in it has no content. */
  lemma ReleasedIsEmpty(m: Incoming)
    requires !Held(m)
    ensures ContentOf(m) == NOTHING
  {}

  lemma RetireSynced(rx: Rx, M: seq<Incoming>)
    requires Synced(rx, M) && AtFront(rx)
    ensures Synced(Retire(rx), M)
    ensures var r := Retire(rx);
            r.nextIncomingSequence == rx.nextIncomingSequence + 1 &&
            (AtFront(r) ==> r.incoming[0] == M[rx.nextIncomingSequence])
  {
    var r := Retire(rx);
    assert forall i :: 0 <= i < |r.incoming| ==> r.incoming[i] == rx.incoming[i + 1];
  }

  /** The content to come, when the front message is as it was sent. */
  lemma RemainingWhole(rx: Rx, M: seq<Incoming>)
    requires Synced(rx, M) && (AtFront(rx) ==> rx.incoming[0] == M[rx.nextIncomingSequence - 1])
    ensures Remaining(rx, M) == Contents(M[rx.nextIncomingSequence - 1..])
  {
    var n := rx.nextIncomingSequence;
    if AtFront(rx) {
      assert M[n - 1..][1..] == M[n..];
    } else {
      JoinNothing(Contents(M[n - 1..]));
    }
    hide Synced, ContentOf;
  }

  lemma RetireDelivered(rx: Rx)
    requires |rx.incoming| > 0
    ensures Delivered(Retire(rx)) == Delivered(rx) && Retire(rx).eof == rx.eof
  {}

  lemma RetireInStep(rx: Rx, M: seq<Incoming>)
    requires InStep(rx, M) && AtFront(rx) && !Held(rx.incoming[0])
    ensures InStep(Retire(rx), M)
  {
    hide Contents, ContentOf, Delivered, QueueOk;
    var r, n := Retire(rx), rx.nextIncomingSequence;
    RetireSynced(rx, M);
    assert Delivered(r) == Delivered(rx) by { RetireDelivered(rx); }
    RemainingWhole(r, M);
    ReleasedIsEmpty(rx.incoming[0]);
    JoinNothing(Contents(M[n..]));
    if AtFront(r) { TokensAfter(M, n); }
  }

  /** If no data follows a point of M, none follows a later point. */
  lemma TokensAfter(M: seq<Incoming>, n: nat)
    requires n < |M|
    ensures Contents(M[n..]).tokens == [] ==> Contents(M[n + 1..]).tokens == []
  {
    assert M[n..][1..] == M[n + 1..];
  }

  lemma {:induction false} LoopInStep(rx: Rx, M: seq<Incoming>)
    requires InStep(rx, M) && TrailLast(M)
    ensures InStep(TransferLoop(rx), M)
    decreases |rx.incoming|
  {
    if FrontAvailable(rx) {
      OfferInStep(rx, M);
      if !Held(Offer(rx).incoming[0]) {
        RetireInStep(Offer(rx), M);
        LoopInStep(Retire(Offer(rx)), M);
      }
    }
    hide InStep, TrailLast, Contents, Offer;
  }

  lemma DrainedHasNoData(m: Incoming)
    requires m.bodyLength == 0 && !m.flags.messageComplete
    ensures ContentOf(m).tokens == []
  {}

  /** When gRPC waits for a message, the loop leaves no data in front of it. */
  lemma LoopDrains(rx: Rx, M: seq<Incoming>)
    requires InStep(rx, M) && rx.eof && rx.messageCb.Some?
    requires AtFront(rx) ==> Remains(rx, rx.incoming[0]) == rx.incoming[0]
    ensures Delivered(rx).tokens == Contents(M).tokens
  {
    hide Synced, ContentOf, Contents, Delivered, Beyond;
    if AtFront(rx) { DrainedHasNoData(rx.incoming[0]); }
    assert Remaining(rx, M).tokens == [];
  }

  /** The data of whole messages ends with an end mark. */
  predicate Closed(tokens: seq<int>) { tokens == [] || tokens[|tokens| - 1] == END }

  /** Where the end of the stream is signalled, everything has been handed over. */
  lemma EofInStep(rx: Rx, M: seq<Incoming>)
    requires InStep(rx, M) && Closed(Contents(M).tokens)
    requires rx.eof && rx.messageCb.Some? ==> Delivered(rx).tokens == Contents(M).tokens
    ensures InStep(SignalEof(rx), M)
    ensures rx.eof && rx.messageCb.Some? ==>
            Contents(M).trails != [] && DoneContent(SignalEof(rx).done).tokens == Contents(M).tokens
  {
    hide Contents, ContentOf, DoneContent;
    if rx.eof && rx.messageCb.Some? {
      EofDelivered(rx);
      EofSynced(rx, M);
      hide Synced, Beyond, SignalEof;
    }
  }

  lemma EofSynced(rx: Rx, M: seq<Incoming>)
    requires Synced(rx, M)
    ensures Synced(SignalEof(rx), M) && Beyond(SignalEof(rx), M) == Beyond(rx, M)
    ensures Remaining(SignalEof(rx), M) == Remaining(rx, M) && SignalEof(rx).eof == rx.eof
  {
    hide Contents, ContentOf;
  }

  lemma EofDelivered(rx: Rx)
    requires rx.eof && rx.messageCb.Some? && Closed(Delivered(rx).tokens)
    ensures Delivered(SignalEof(rx)) == Delivered(rx) && DoneContent(SignalEof(rx).done) == Delivered(rx)
  {
    hide DoneContent;
    DoneOne(rx.done, NoMessage(rx.messageCb.value));
    JoinNothing(DoneContent(rx.done));
    if BodySoFar(rx) != [] { PartialIsOpen(DoneContent(rx.done).tokens, BodySoFar(rx)); }
  }

  lemma PartialIsOpen(done: seq<int>, body: Bytes)
    requires body != []
    ensures !Closed(done + body)
  {
    assert (done + body)[|done + body| - 1] == body[|body| - 1];
  }

  predicate SaysNoMessage(done: seq<Completion>) { exists i :: 0 <= i < |done| && done[i].NoMessage? }

  /** If gRPC has been told that there are no more messages, it has been given all of them. */
  predicate EndedWell(done: seq<Completion>, M: seq<Incoming>) {
    SaysNoMessage(done) ==> Contents(M).trails != [] && DoneContent(done).tokens == Contents(M).tokens
  }

  /** The second log continues the first without announcing the end of the stream. */
  predicate Continues(before: seq<Completion>, after: seq<Completion>) {
    before <= after && forall i :: |before| <= i < |after| ==> !after[i].NoMessage?
  }

  lemma {:induction false} LoopLog(rx: Rx)
    ensures Continues(rx.done, TransferLoop(rx).done)
    decreases |rx.incoming|
  {
    if FrontAvailable(rx) {
      OfferLog(rx);
      if !Held(Offer(rx).incoming[0]) { LoopLog(Retire(Offer(rx))); }
    }
    hide Offer;
  }

  lemma OfferLog(rx: Rx)
    requires |rx.incoming| > 0
    ensures Continues(rx.done, Offer(rx).done)
  {
    hide Remains;
    assert forall i :: 0 <= i < |CompletedBy(rx, rx.incoming[0])| ==> !CompletedBy(rx, rx.incoming[0])[i].NoMessage?;
  }

  lemma {:induction false} DoneGrows(before: seq<Completion>, after: seq<Completion>)
    requires before <= after
    ensures PrefixOf(DoneContent(before), DoneContent(after))
    decreases |after|
  {
    if |before| < |after| {
      var shorter := after[..|after| - 1];
      DoneGrows(before, shorter);
      JoinPrefix(DoneContent(shorter), CompletionContent(after[|after| - 1]));
    } else {
      assert before == after;
    }
  }

  /** What has been handed over in full is the beginning of what was sent. */
  lemma InStepPrefix(rx: Rx, M: seq<Incoming>)
    requires InStep(rx, M)
    ensures PrefixOf(DoneContent(rx.done), Contents(M))
  {
    hide Synced, ContentOf, Contents, DoneContent, Partial, Remaining;
    JoinPrefix(DoneContent(rx.done), Partial(rx));
    JoinPrefix(Delivered(rx), Remaining(rx, M));
  }

  /** Once everything has been handed over, nothing more can be. */
  lemma EndedStays(a: seq<Completion>, b: seq<Completion>, M: seq<Incoming>)
    requires EndedWell(a, M) && Continues(a, b) && PrefixOf(DoneContent(b), Contents(M))
    ensures EndedWell(b, M)
  {
    hide Contents, DoneContent;
    if SaysNoMessage(b) {
      assert SaysNoMessage(a);
      DoneGrows(a, b);
    }
  }

  /** transferData keeps the receiver in step, and announces the end only when all data is delivered. */
  lemma TransferInStep(rx: Rx, M: seq<Incoming>)
    requires InStep(rx, M) && TrailLast(M) && Closed(Contents(M).tokens) && EndedWell(rx.done, M)
    ensures InStep(TransferData(rx), M) && EndedWell(TransferData(rx).done, M)
  {
    hide InStep, TrailLast, Closed, Contents, EndedWell, DoneContent, Delivered, TransferLoop;
    var r := TransferLoop(rx);
    LoopInStep(rx, M);
    LoopLog(rx);
    InStepPrefix(r, M);
    EndedStays(rx.done, r.done, M);
    LoopProgress(rx);
    if r.eof && r.messageCb.Some? { LoopDrains(r, M); }
    EofInStep(r, M);
    EofEnds(r, M);
  }

  lemma EofEnds(rx: Rx, M: seq<Incoming>)
    requires EndedWell(rx.done, M)
    requires rx.eof && rx.messageCb.Some? ==>
             Contents(M).trails != [] && DoneContent(SignalEof(rx).done).tokens == Contents(M).tokens
    ensures EndedWell(SignalEof(rx).done, M)
  {
    hide Contents, DoneContent;
  }

  // ------------------------------------------------ arrivals, callbacks, growth

  /** Every waiting message except possibly the first is as it was sent. */
  predicate FromM(q: seq<Incoming>, M: seq<Incoming>, first: nat) {
    && (forall i :: 0 <= i < |q| ==> 1 <= q[i].sequence <= |M|)
    && (forall i :: first <= i < |q| ==> q[i] == M[q[i].sequence - 1])
  }

  lemma InsertFromM(q: seq<Incoming>, M: seq<Incoming>, first: nat, p: nat, m: Incoming)
    requires FromM(q, M, first) && first <= p <= |q| && 1 <= m.sequence <= |M| && m == M[m.sequence - 1]
    ensures FromM(q[..p] + [m] + q[p..], M, first)
  {
    var r := q[..p] + [m] + q[p..];
    assert forall i :: 0 <= i < |r| ==> r[i] == if i < p then q[i] else if i == p then m else q[i - 1];
  }

  lemma InsertSynced(rx: Rx, M: seq<Incoming>, k: nat)
    requires Synced(rx, M) && k < |M| && M[k].sequence == k + 1 && rx.nextIncomingSequence <= k + 1
    requires Insert(rx.incoming, M[k]).Some?
    ensures var r := rx.(incoming := Insert(rx.incoming, M[k]).value);
            Synced(r, M) && (AtFront(rx) ==> AtFront(r) && r.incoming[0] == rx.incoming[0]) &&
            (AtFront(r) && !AtFront(rx) ==> r.incoming[0] == M[rx.nextIncomingSequence - 1])
  {
    var q, m, p := rx.incoming, M[k], Place(rx.incoming, k + 1);
    var first := if AtFront(rx) then 1 else 0;
    if AtFront(rx) { FrontStays(rx, m); }
    assert FromM(q, M, first);
    InsertKeepsOrder(rx, m);
    InsertAtPlace(q, m);
    hide QueueOk, Insert, Place, Waiting;
    InsertFromM(q, M, first, p, m);
    var r := q[..p] + [m] + q[p..];
    assert r[0] == if p > 0 then q[0] else m;
    hide FromM;
    SyncedFrom(rx.(incoming := r), M, first);
  }

  lemma SyncedFrom(rx: Rx, M: seq<Incoming>, first: nat)
    requires QueueOk(rx) && 1 <= rx.nextIncomingSequence <= |M| + 1 && FromM(rx.incoming, M, first)
    requires first == 0 || (first == 1 && AtFront(rx))
    requires first == 1 && rx.incoming[0].flags.trailMdPresent ==>
             rx.nextIncomingSequence <= |M| && M[rx.nextIncomingSequence - 1].flags.trailMdPresent
    ensures Synced(rx, M)
  {
    hide QueueOk;
  }

  lemma FrontStays(rx: Rx, m: Incoming)
    requires QueueOk(rx) && AtFront(rx) && rx.nextIncomingSequence <= m.sequence && Insert(rx.incoming, m).Some?
    ensures Place(rx.incoming, m.sequence) > 0
  {
    PlaceSound(rx.incoming, m.sequence);
    InsertDropsDuplicates(rx.incoming, m);
    assert Waiting(rx.incoming, rx.nextIncomingSequence);
  }

  lemma InsertRemaining(rx: Rx, r: Rx, M: seq<Incoming>)
    requires Synced(rx, M) && Synced(r, M) && r.nextIncomingSequence == rx.nextIncomingSequence
    requires AtFront(rx) ==> AtFront(r) && r.incoming[0] == rx.incoming[0]
    requires AtFront(r) && !AtFront(rx) ==> r.incoming[0] == M[rx.nextIncomingSequence - 1]
    ensures Remaining(r, M) == Remaining(rx, M)
    ensures Contents(Beyond(rx, M)).tokens == [] ==> Contents(Beyond(r, M)).tokens == []
  {
    var n := rx.nextIncomingSequence;
    assert 1 <= n <= |M| + 1;
    assert AtFront(r) ==> n <= |M|;
    hide Synced, ContentOf, Contents;
    if AtFront(r) && !AtFront(rx) {
      RemainingWhole(rx, M);
      RemainingWhole(r, M);
      TokensAfter(M, n - 1);
    }
  }

  /** A message that joins the queue changes nothing about what is delivered and what remains. */
  lemma InsertInStep(rx: Rx, M: seq<Incoming>, k: nat)
    requires InStep(rx, M) && k < |M| && M[k].sequence == k + 1 && rx.nextIncomingSequence <= k + 1
    requires Insert(rx.incoming, M[k]).Some?
    ensures InStep(rx.(incoming := Insert(rx.incoming, M[k]).value), M)
  {
    hide Synced, ContentOf, Contents, Insert, DoneContent, Remaining, Beyond;
    var r := rx.(incoming := Insert(rx.incoming, M[k]).value);
    InsertSynced(rx, M, k);
    InsertRemaining(rx, r, M);
  }

  lemma EnqueueInStep(rx: Rx, M: seq<Incoming>, k: nat)
    requires InStep(rx, M) && TrailLast(M) && Closed(Contents(M).tokens) && EndedWell(rx.done, M)
    requires k < |M| && M[k].sequence == k + 1
    ensures InStep(Enqueue(rx, M[k]), M) && EndedWell(Enqueue(rx, M[k]).done, M)
  {
    hide InStep, TrailLast, Closed, Contents, DoneContent, TransferData, Insert;
    var q := Insert(rx.incoming, M[k]);
    if rx.nextIncomingSequence <= k + 1 && q.Some? {
      InsertInStep(rx, M, k);
      TransferInStep(rx.(incoming := q.value), M);
    }
  }

  /** gRPC asks for the next message only when the last one is complete. */
  predicate Polite(rx: Rx, op: RecvOp) { op.message.Some? ==> rx.messageCb.None? }

  lemma RegisterInStep(rx: Rx, M: seq<Incoming>, op: RecvOp)
    requires InStep(rx, M) && Polite(rx, op)
    ensures InStep(Register(rx, op), M) && Register(rx, op).done == rx.done && Register(rx, op).eof == rx.eof
  {
    hide ContentOf, Contents, DoneContent;
    var r := Register(rx, op);
    assert Partial(r) == Partial(rx);
    assert r.incoming == rx.incoming && r.nextIncomingSequence == rx.nextIncomingSequence;
    hide Register;
    SameQueue(rx, r, M);
    hide Synced, Beyond, Remaining, Partial;
  }

  lemma SameQueue(a: Rx, b: Rx, M: seq<Incoming>)
    requires Synced(a, M) && a.incoming == b.incoming && a.nextIncomingSequence == b.nextIncomingSequence
    ensures Synced(b, M) && Beyond(b, M) == Beyond(a, M) && Remaining(b, M) == Remaining(a, M)
  {
    hide ContentOf, Contents;
  }

  /** More messages are sent: what remains grows by their content. */
  lemma GrowInStep(rx: Rx, M: seq<Incoming>, N: seq<Incoming>)
    requires InStep(rx, M) && (rx.eof ==> Contents(N).tokens == [])
    ensures InStep(rx, M + N)
  {
    var W := M + N;
    GrowSynced(rx, M, N);
    ContentsAppend(M, N);
    ContentsAppend(Beyond(rx, M), N);
    hide Synced, ContentOf, Contents, Delivered, Beyond;
    var front := if AtFront(rx) then ContentOf(rx.incoming[0]) else NOTHING;
    JoinAssociative(front, Contents(Beyond(rx, M)), Contents(N));
    JoinAssociative(Delivered(rx), Remaining(rx, M), Contents(N));
  }

  lemma GrowSynced(rx: Rx, M: seq<Incoming>, N: seq<Incoming>)
    requires Synced(rx, M)
    ensures Synced(rx, M + N) && Beyond(rx, M + N) == Beyond(rx, M) + N
  {
    hide QueueOk;
    var n := rx.nextIncomingSequence;
    assert (M + N)[n - 1..] == M[n - 1..] + N;
    if n <= |M| { assert (M + N)[n..] == M[n..] + N; }
  }
}
